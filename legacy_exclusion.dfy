/** The legacy exclusion applied to the live list: the records at positions
    1, 2, 3, 4 and 7 of that list are dropped, whatever they hold. */
module LegacyExclusion {

  /** The positions named in the exclusion array of `frontend/src/App.js`. */
  const LegacyPositions: seq<nat> := [1, 2, 3, 4, 7]

  /** `[1, 2, 3, 4, 7].includes(i)`. */
  predicate IsLegacy(i: nat)
  {
    i in LegacyPositions
  }

  function Min(a: nat, b: nat): nat
  {
    if a <= b then a else b
  }

  /** The elements of `s` from position `i` on whose position is not a legacy
      position, in order. */
  function ExcludeFrom<T>(s: seq<T>, i: nat): (r: seq<T>)
    requires i <= |s|
    ensures |r| <= |s| - i
    decreases |s| - i
  {
    if i == |s| then []
    else (if IsLegacy(i) then [] else [s[i]]) + ExcludeFrom(s, i + 1)
  }

  /** `filter((_, i) => ![1, 2, 3, 4, 7].includes(i))`. */
  function ExcludeLegacy<T>(s: seq<T>): (r: seq<T>)
    ensures |r| <= |s|
    ensures |s| > 0 ==> |r| > 0 && r[0] == s[0]
  {
    ExcludeFrom(s, 0)
  }

  /** The legacy positions that exist in a list of length `n`. */
  ghost function PositionsBelow(n: nat): set<nat>
  {
    set i: nat | i < n && IsLegacy(i)
  }

  /** A run of non-legacy positions `i..j` is copied as it is. */
  lemma {:induction false} ExcludeFromKept<T>(s: seq<T>, i: nat, j: nat)
    requires i <= j <= |s|
    requires forall p :: i <= p < j ==> !IsLegacy(p)
    ensures ExcludeFrom(s, i) == s[i..j] + ExcludeFrom(s, j)
    decreases j - i
  {
    if i < j {
      ExcludeFromKept(s, i + 1, j);
      assert !IsLegacy(i);
      assert ExcludeFrom(s, i) == [s[i]] + ExcludeFrom(s, i + 1);
      assert s[i..j] == [s[i]] + s[i + 1..j];
      ConcatAssoc([s[i]], s[i + 1..j], ExcludeFrom(s, j));
    } else {
      assert s[i..j] == [];
    }
  }

  lemma ConcatAssoc<T>(a: seq<T>, b: seq<T>, c: seq<T>)
    ensures a + (b + c) == a + b + c
  {
  }

  /** A run of legacy positions `i..j` is dropped entirely. */
  lemma {:induction false} ExcludeFromDropped<T>(s: seq<T>, i: nat, j: nat)
    requires i <= j <= |s|
    requires forall p :: i <= p < j ==> IsLegacy(p)
    ensures ExcludeFrom(s, i) == ExcludeFrom(s, j)
    decreases j - i
  {
    if i < j {
      ExcludeFromDropped(s, i + 1, j);
    }
  }

  /** Exactly positions 0, 5, 6 and 8 onwards survive, in their order. */
  lemma ExcludeLegacyShape<T>(s: seq<T>)
    ensures ExcludeLegacy(s)
         == s[..Min(1, |s|)] + s[Min(5, |s|)..Min(7, |s|)] + s[Min(8, |s|)..]
  {
    var n := |s|;
    var p1, p5, p7, p8 := Min(1, n), Min(5, n), Min(7, n), Min(8, n);
    ExcludeFromKept(s, 0, p1);
    ExcludeFromDropped(s, p1, p5);
    ExcludeFromKept(s, p5, p7);
    ExcludeFromDropped(s, p7, p8);
    ExcludeFromKept(s, p8, n);
    assert s[0..p1] == s[..p1] && s[p8..n] == s[p8..];
  }

  lemma {:induction false} PositionsBelowCard(n: nat)
    ensures |PositionsBelow(n)| == (Min(5, n) - Min(1, n)) + (Min(8, n) - Min(7, n))
  {
    if n == 0 {
      assert PositionsBelow(0) == {};
    } else {
      PositionsBelowCard(n - 1);
      if IsLegacy(n - 1) {
        assert PositionsBelow(n) == PositionsBelow(n - 1) + {n - 1};
      } else {
        assert PositionsBelow(n) == PositionsBelow(n - 1);
      }
    }
  }

  /** The result is shorter than the input by the number of legacy positions
      that the input actually has; a list of at most one element is unchanged. */
  lemma ExcludeLegacyLength<T>(s: seq<T>)
    ensures |ExcludeLegacy(s)| == |s| - |PositionsBelow(|s|)|
    ensures |s| <= 1 ==> ExcludeLegacy(s) == s
  {
    ExcludeLegacyShape(s);
    PositionsBelowCard(|s|);
  }

  /** Seven live records: only positions 1 to 4 exist among the legacy ones,
      so three records remain and position 7 has no effect. */
  lemma SevenLiveKeepsThree<T>(s: seq<T>)
    requires |s| == 7
    ensures ExcludeLegacy(s) == [s[0], s[5], s[6]]
  {
    ExcludeLegacyShape(s);
  }

  /** Nothing is added or duplicated by the exclusion. */
  lemma ExcludeLegacySubMultiset<T>(s: seq<T>)
    ensures multiset(ExcludeLegacy(s)) <= multiset(s)
  {
    var n := |s|;
    ExcludeLegacyShape(s);
    var p1, p5, p7, p8 := Min(1, n), Min(5, n), Min(7, n), Min(8, n);
    assert s == s[..p1] + s[p1..p5] + s[p5..p7] + s[p7..p8] + s[p8..];
  }
}
