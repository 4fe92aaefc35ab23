/** Certificate records as the ledger returns them, and the order-preserving
    filter that every list update of the client is built from. */
module Records {

  /** One issued certificate: the IPFS content identifier of the document and
      the issuance time, in seconds since the epoch. */
  datatype Certificate = Certificate(ipfsHash: string, issuedAt: int)

  /** The elements of `s` at the positions that `keep` marks, in their order
      in `s` (what `Array.prototype.filter` and a `push` loop both build). */
  function KeepWhere<T>(s: seq<T>, keep: seq<bool>): (r: seq<T>)
    requires |keep| == |s|
    ensures |r| <= |s|
    decreases |s|
  {
    if s == [] then []
    else KeepWhere(s[..|s| - 1], keep[..|s| - 1]) + (if keep[|s| - 1] then [s[|s| - 1]] else [])
  }

  /** The marked positions, ascending: the witness that a filter result is a
      subsequence of its input. */
  function KeptIndices(keep: seq<bool>): (idx: seq<nat>)
    ensures forall k :: 0 <= k < |idx| ==> idx[k] < |keep| && keep[idx[k]]
    ensures forall k, l :: 0 <= k < l < |idx| ==> idx[k] < idx[l]
    ensures forall i :: 0 <= i < |keep| && keep[i] ==> i in idx
    decreases |keep|
  {
    if keep == [] then []
    else KeptIndices(keep[..|keep| - 1]) + (if keep[|keep| - 1] then [|keep| - 1] else [])
  }

  /** The filter result is `s` read at the kept indices: nothing is
      fabricated, duplicated or reordered, and every marked element is there. */
  lemma {:induction false} KeepWhereAt<T>(s: seq<T>, keep: seq<bool>)
    requires |keep| == |s|
    ensures |KeepWhere(s, keep)| == |KeptIndices(keep)|
    ensures forall k :: 0 <= k < |KeptIndices(keep)| ==> KeepWhere(s, keep)[k] == s[KeptIndices(keep)[k]]
    decreases |s|
  {
    if s != [] {
      var n := |s| - 1;
      KeepWhereAt(s[..n], keep[..n]);
    }
  }

  /** An element survives the filter exactly when it occurs at a marked position. */
  lemma KeepWhereMembership<T>(s: seq<T>, keep: seq<bool>, x: T)
    requires |keep| == |s|
    ensures x in KeepWhere(s, keep) <==> exists i :: 0 <= i < |s| && keep[i] && s[i] == x
  {
    KeepWhereAt(s, keep);
    var r, idx := KeepWhere(s, keep), KeptIndices(keep);
    if x in r {
      var k :| 0 <= k < |r| && r[k] == x;
      assert s[idx[k]] == x && keep[idx[k]];
    }
    if i :| 0 <= i < |s| && keep[i] && s[i] == x {
      var k :| 0 <= k < |idx| && idx[k] == i;
      assert r[k] == x;
    }
  }

  /** The filter takes every element at most as often as the input holds it. */
  lemma {:induction false} KeepWhereSubMultiset<T>(s: seq<T>, keep: seq<bool>)
    requires |keep| == |s|
    ensures multiset(KeepWhere(s, keep)) <= multiset(s)
    decreases |s|
  {
    if s != [] {
      var n := |s| - 1;
      KeepWhereSubMultiset(s[..n], keep[..n]);
      assert s == s[..n] + [s[n]];
    }
  }

  /** A mask that keeps everything leaves the list as it was. */
  lemma {:induction false} KeepWhereAll<T>(s: seq<T>, keep: seq<bool>)
    requires |keep| == |s|
    requires forall i :: 0 <= i < |keep| ==> keep[i]
    ensures KeepWhere(s, keep) == s
    decreases |s|
  {
    if s != [] {
      var n := |s| - 1;
      KeepWhereAll(s[..n], keep[..n]);
      assert s == s[..n] + [s[n]];
    }
  }

  /** An unmarked first element does not reach the result. */
  lemma {:induction false} KeepWhereFirstDropped<T>(s: seq<T>, keep: seq<bool>)
    requires |keep| == |s| && s != [] && !keep[0]
    ensures KeepWhere(s, keep) == KeepWhere(s[1..], keep[1..])
    decreases |s|
  {
    var n := |s| - 1;
    if n > 0 {
      KeepWhereFirstDropped(s[..n], keep[..n]);
      assert s[..n][1..] == s[1..][..n - 1] && keep[..n][1..] == keep[1..][..n - 1];
    }
  }
}
