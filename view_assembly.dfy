/** `loadCertificates`: reads the wallet's records from the ledger, keeps the
    ones whose content is still pinned (probing one record at a time, in
    ledger order), drops the legacy positions of that live list, sorts the
    rest by issuance time and hands the result to the certificate list. */
module ViewAssembly {
  import opened Wrappers
  import opened Records
  import opened Liveness
  import opened LegacyExclusion
  import opened StableSort

  /** What a load event publishes: the assembled list, or the ledger failure
      that aborts it before any probe (the displayed list is then untouched). */
  datatype LoadResult = Loaded(view: seq<Certificate>) | LedgerUnavailable

  /** The list assembled from the ledger records and their probe verdicts. */
  function AssembleView(certs: seq<Certificate>, alive: seq<bool>): (r: seq<Certificate>)
    requires |alive| == |certs|
    ensures |r| <= |certs|
    ensures SortedByIssuedAt(r)
  {
    var shown := ExcludeLegacy(KeepWhere(certs, alive));
    var sorted := SortByIssuedAt(shown);
    assert |sorted| == |multiset(sorted)| == |multiset(shown)| == |shown|;
    sorted
  }

  /** The assembled list is ordered by issuance time and is a permutation of
      the live list after the legacy exclusion. */
  lemma AssembleViewOrdered(certs: seq<Certificate>, alive: seq<bool>)
    requires |alive| == |certs|
    ensures SortedByIssuedAt(AssembleView(certs, alive))
    ensures multiset(AssembleView(certs, alive)) == multiset(ExcludeLegacy(KeepWhere(certs, alive)))
  {
  }

  /** Records issued at the same time appear in the order they had after the
      exclusion, and the assembled list is the only ordering with both properties. */
  lemma AssembleViewStable(certs: seq<Certificate>, alive: seq<bool>, t: int)
    requires |alive| == |certs|
    ensures IssuedAt(AssembleView(certs, alive), t) == IssuedAt(ExcludeLegacy(KeepWhere(certs, alive)), t)
  {
    SortStable(ExcludeLegacy(KeepWhere(certs, alive)), t);
  }

  /** No record is fabricated or duplicated: the view holds each record at
      most as often as the ledger does, and only records whose probe said
      alive; a record probed dead at all its ledger positions never appears. */
  lemma AssembleViewFromLiveRecords(certs: seq<Certificate>, alive: seq<bool>)
    requires |alive| == |certs|
    ensures multiset(AssembleView(certs, alive)) <= multiset(certs)
    ensures forall x :: x in AssembleView(certs, alive) ==>
              exists i :: 0 <= i < |certs| && alive[i] && certs[i] == x
  {
    var live := KeepWhere(certs, alive);
    KeepWhereSubMultiset(certs, alive);
    ExcludeLegacySubMultiset(live);
    forall x | x in AssembleView(certs, alive)
      ensures exists i :: 0 <= i < |certs| && alive[i] && certs[i] == x
    {
      assert x in multiset(AssembleView(certs, alive));
      assert x in multiset(live);
      KeepWhereMembership(certs, alive, x);
    }
  }

  /** Two live records issued at 100 and 50: position 1 of the live list is a
      legacy position, so only the first record is shown, not both in time order. */
  lemma TwoLiveRecordsKeepFirst()
    ensures AssembleView([Certificate("a", 100), Certificate("b", 50)], [true, true])
         == [Certificate("a", 100)]
  {
    var certs := [Certificate("a", 100), Certificate("b", 50)];
    KeepWhereAll(certs, [true, true]);
    ExcludeLegacyShape(certs);
  }

  /** A single record whose probe failed closed leaves an empty list. */
  lemma SingleDeadRecordEmpty(c: Certificate)
    ensures AssembleView([c], [false]) == []
  {
  }

  /** Seven live records, listed in ascending time: the view is the first,
      sixth and seventh of them; position 7 does not exist and drops nothing. */
  lemma SevenLiveRecordsKeepThree(certs: seq<Certificate>)
    requires |certs| == 7 && SortedByIssuedAt(certs)
    ensures AssembleView(certs, [true, true, true, true, true, true, true]) == [certs[0], certs[5], certs[6]]
  {
    var alive := [true, true, true, true, true, true, true];
    var shown := [certs[0], certs[5], certs[6]];
    assert ExcludeLegacy(KeepWhere(certs, alive)) == shown by {
      KeepWhereAll(certs, alive);
      SevenLiveKeepsThree(certs);
    }
    assert SortedByIssuedAt(shown) by {
      assert certs[0].issuedAt <= certs[5].issuedAt <= certs[6].issuedAt;
    }
    SortIdempotent(shown);
  }

  /** The legacy positions count in the live list, not in the ledger: with six
      live records the sixth is shown ... */
  lemma SixLiveShowSixth(certs: seq<Certificate>)
    requires |certs| == 6
    ensures certs[5] in AssembleView(certs, [true, true, true, true, true, true])
  {
    var all := [true, true, true, true, true, true];
    KeepWhereAll(certs, all);
    ExcludeLegacyShape(certs);
    assert ExcludeLegacy(certs) == [certs[0], certs[5]];
    assert certs[5] in multiset(ExcludeLegacy(certs));
    assert certs[5] in multiset(AssembleView(certs, all));
  }

  /** ... but once the first record's content is gone, the sixth moves to live
      position 4 and is dropped instead. */
  lemma FirstDeadHidesSixth(certs: seq<Certificate>)
    requires |certs| == 6
    ensures AssembleView(certs, [false, true, true, true, true, true]) == [certs[1]]
  {
    var mask := [false, true, true, true, true, true];
    var live := KeepWhere(certs, mask);
    assert live == certs[1..] by {
      KeepWhereAll(certs[1..], mask[1..]);
      KeepWhereFirstDropped(certs, mask);
    }
    ExcludeLegacyShape(live);
    assert ExcludeLegacy(live) == [certs[1]];
  }

  /** The load event. `ledger` is what `getCertificates` yields (None when the
      ledger cannot be read); `responses[i]` is the pinList answer for the
      content identifier of the i-th record; `token` is the pinning credential. */
  method LoadCertificates(ledger: Option<seq<Certificate>>, token: Option<string>,
                          responses: seq<PinListResponse>)
    returns (r: LoadResult)
    requires ledger.Some? ==> |responses| == |ledger.value|
    ensures ledger.None? <==> r.LedgerUnavailable?
    ensures ledger.Some? ==> r == Loaded(AssembleView(ledger.value, ProbeResults(token, responses)))
  {
    if ledger.None? {
      return LedgerUnavailable;
    }
    var certs := ledger.value;
    ghost var alive := ProbeResults(token, responses);
    var filtered: seq<Certificate> := [];
    for i := 0 to |certs|
      invariant filtered == KeepWhere(certs[..i], alive[..i])
    {
      var isAlive := IsCidAlive(token, responses[i]);
      if isAlive {
        filtered := filtered + [certs[i]];
      }
      assert certs[..i + 1][..i] == certs[..i] && alive[..i + 1][..i] == alive[..i];
    }
    assert certs[..|certs|] == certs && alive[..|certs|] == alive;
    var updated := SortByIssuedAt(ExcludeLegacy(filtered));
    r := Loaded(updated);
  }
}
