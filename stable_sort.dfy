/** The ordering step: `sort((a, b) => Number(a.issuedAt) - Number(b.issuedAt))`.
    `Array.prototype.sort` is stable (section 23.1.3.30 of ECMA-262, 2023
    edition), so the result is the stable sort of the records by issuance
    time. It is specified here by an insertion sort, and the uniqueness lemma
    shows that the sorted, per-time stable arrangement it yields is the only one. */
module StableSort {
  import opened Records

  predicate SortedByIssuedAt(s: seq<Certificate>)
  {
    forall i, j :: 0 <= i < j < |s| ==> s[i].issuedAt <= s[j].issuedAt
  }

  /** The records of `s` issued at time `t`, in their order in `s`. Two lists
      that agree on this for every `t` order equal times alike. */
  function IssuedAt(s: seq<Certificate>, t: int): (r: seq<Certificate>)
    ensures |r| <= |s|
    decreases |s|
  {
    if s == [] then []
    else (if s[0].issuedAt == t then [s[0]] else []) + IssuedAt(s[1..], t)
  }

  /** Only records of `s` with time `t` are picked, and each such record is. */
  lemma {:induction false} IssuedAtMembers(s: seq<Certificate>, t: int, x: Certificate)
    ensures x in IssuedAt(s, t) <==> x in s && x.issuedAt == t
    decreases |s|
  {
    if s != [] {
      IssuedAtMembers(s[1..], t, x);
      assert s == [s[0]] + s[1..];
    }
  }

  /** Places `x` before the first record issued no earlier than `x`. */
  function Insert(x: Certificate, s: seq<Certificate>): (r: seq<Certificate>)
    ensures multiset(r) == multiset(s) + multiset{x}
    decreases |s|
  {
    if s == [] || x.issuedAt <= s[0].issuedAt then [x] + s
    else
      assert s == [s[0]] + s[1..];
      [s[0]] + Insert(x, s[1..])
  }

  lemma {:induction false} InsertSorted(x: Certificate, s: seq<Certificate>)
    requires SortedByIssuedAt(s)
    ensures SortedByIssuedAt(Insert(x, s))
    decreases |s|
  {
    if s != [] && x.issuedAt > s[0].issuedAt {
      var tail := s[1..];
      var rest := Insert(x, tail);
      InsertSorted(x, tail);
      forall k | 0 <= k < |rest|
        ensures s[0].issuedAt <= rest[k].issuedAt
      {
        assert rest[k] in multiset(rest);
        if rest[k] != x {
          assert rest[k] in multiset(tail);
          var m :| 0 <= m < |tail| && tail[m] == rest[k];
          assert s[m + 1] == rest[k];
        }
      }
      var r := [s[0]] + rest;
      assert forall k :: 1 <= k < |r| ==> r[k] == rest[k - 1];
    }
  }

  /** The records in ascending order of issuance time; a permutation of the input. */
  function SortByIssuedAt(s: seq<Certificate>): (r: seq<Certificate>)
    ensures SortedByIssuedAt(r)
    ensures multiset(r) == multiset(s)
    decreases |s|
  {
    if s == [] then []
    else
      assert s == [s[0]] + s[1..];
      InsertSorted(s[0], SortByIssuedAt(s[1..]));
      Insert(s[0], SortByIssuedAt(s[1..]))
  }

  /** Time `t`'s records of `[x] + s`: `x` (if issued at `t`) and then those of `s`. */
  lemma ConsIssuedAt(x: Certificate, s: seq<Certificate>, t: int)
    ensures IssuedAt([x] + s, t) == (if x.issuedAt == t then [x] else []) + IssuedAt(s, t)
  {
    assert ([x] + s)[0] == x && ([x] + s)[1..] == s;
  }

  lemma {:induction false} InsertIssuedAt(x: Certificate, s: seq<Certificate>, t: int)
    ensures IssuedAt(Insert(x, s), t) == (if x.issuedAt == t then [x] else []) + IssuedAt(s, t)
    decreases |s|
  {
    if s == [] || x.issuedAt <= s[0].issuedAt {
      ConsIssuedAt(x, s, t);
    } else {
      var s0, tail := s[0], s[1..];
      InsertIssuedAt(x, tail, t);
      ConsIssuedAt(s0, Insert(x, tail), t);
      ConsIssuedAt(s0, tail, t);
      assert s == [s0] + tail;
      if x.issuedAt == t {
        assert s0.issuedAt != t;
      }
    }
  }

  /** Stability: records issued at the same time keep their relative order. */
  lemma {:induction false} SortStable(s: seq<Certificate>, t: int)
    ensures IssuedAt(SortByIssuedAt(s), t) == IssuedAt(s, t)
    decreases |s|
  {
    if s != [] {
      SortStable(s[1..], t);
      InsertIssuedAt(s[0], SortByIssuedAt(s[1..]), t);
    }
  }

  /** A list that agrees with the empty list on every time is empty. */
  lemma AgreeWithEmpty(a: seq<Certificate>)
    requires forall t :: IssuedAt(a, t) == []
    ensures a == []
  {
    if a != [] {
      ConsIssuedAt(a[0], a[1..], a[0].issuedAt);
      assert a == [a[0]] + a[1..];
      assert IssuedAt(a, a[0].issuedAt) != [];
    }
  }

  /** A record of `b` has its time occurring in `a` too, so the first record
      of a sorted `a` is issued no later. */
  lemma FirstNoLater(a: seq<Certificate>, b: seq<Certificate>)
    requires a != [] && b != [] && SortedByIssuedAt(a)
    requires forall t :: IssuedAt(a, t) == IssuedAt(b, t)
    ensures a[0].issuedAt <= b[0].issuedAt
  {
    var tb := b[0].issuedAt;
    assert IssuedAt(a, tb) == IssuedAt(b, tb);
    IssuedAtMembers(b, tb, b[0]);
    IssuedAtMembers(a, tb, b[0]);
    var k :| 0 <= k < |a| && a[k] == b[0];
  }

  /** Sorted agreeing lists start with the same record. */
  lemma HeadsEqual(a: seq<Certificate>, b: seq<Certificate>)
    requires a != [] && b != [] && SortedByIssuedAt(a) && SortedByIssuedAt(b)
    requires forall t :: IssuedAt(a, t) == IssuedAt(b, t)
    ensures a[0] == b[0]
  {
    FirstNoLater(a, b);
    FirstNoLater(b, a);
    var ta := a[0].issuedAt;
    assert IssuedAt(a, ta) == IssuedAt(b, ta);
    TimeHead(a, ta);
    TimeHead(b, ta);
  }

  lemma TimeHead(a: seq<Certificate>, t: int)
    requires a != [] && a[0].issuedAt == t
    ensures IssuedAt(a, t) != [] && IssuedAt(a, t)[0] == a[0]
  {
  }

  /** Removing the same first record keeps the agreement at time `t`. */
  lemma TailsAgree(a: seq<Certificate>, b: seq<Certificate>, t: int)
    requires a != [] && b != [] && a[0] == b[0]
    requires IssuedAt(a, t) == IssuedAt(b, t)
    ensures IssuedAt(a[1..], t) == IssuedAt(b[1..], t)
  {
    assert a == [a[0]] + a[1..] && b == [b[0]] + b[1..];
    ConsIssuedAt(a[0], a[1..], t);
    ConsIssuedAt(b[0], b[1..], t);
    var front := if a[0].issuedAt == t then [a[0]] else [];
    DropCommonPrefix(front, IssuedAt(a[1..], t), IssuedAt(b[1..], t));
  }

  lemma DropCommonPrefix(p: seq<Certificate>, x: seq<Certificate>, y: seq<Certificate>)
    requires p + x == p + y
    ensures x == y
  {
    assert x == (p + x)[|p|..];
    assert y == (p + y)[|p|..];
  }

  /** Two sorted lists that agree on the order of every issuance time are equal. */
  lemma {:induction false} SortedAgreeingEqual(a: seq<Certificate>, b: seq<Certificate>)
    requires SortedByIssuedAt(a) && SortedByIssuedAt(b)
    requires forall t :: IssuedAt(a, t) == IssuedAt(b, t)
    ensures a == b
    decreases |a|
  {
    if a == [] {
      AgreeWithEmpty(b);
    } else if b == [] {
      AgreeWithEmpty(a);
    } else {
      HeadsEqual(a, b);
      forall t
        ensures IssuedAt(a[1..], t) == IssuedAt(b[1..], t)
      {
        TailsAgree(a, b, t);
      }
      SortedAgreeingEqual(a[1..], b[1..]);
      assert a == [a[0]] + a[1..] && b == [b[0]] + b[1..];
    }
  }

  /** Any arrangement of `s` that is sorted by issuance time and keeps equal
      times in input order is `SortByIssuedAt(s)`: so this is what a stable
      sort with the numeric comparator produces. */
  lemma SortUnique(s: seq<Certificate>, r: seq<Certificate>)
    requires SortedByIssuedAt(r)
    requires forall t :: IssuedAt(r, t) == IssuedAt(s, t)
    ensures r == SortByIssuedAt(s)
  {
    forall t
      ensures IssuedAt(r, t) == IssuedAt(SortByIssuedAt(s), t)
    {
      SortStable(s, t);
    }
    SortedAgreeingEqual(r, SortByIssuedAt(s));
  }

  /** Sorting an already ordered list leaves it as it is, so sorting twice is
      the same as sorting once. */
  lemma SortIdempotent(s: seq<Certificate>)
    ensures SortedByIssuedAt(s) ==> SortByIssuedAt(s) == s
    ensures SortByIssuedAt(SortByIssuedAt(s)) == SortByIssuedAt(s)
  {
    if SortedByIssuedAt(s) {
      SortUnique(s, s);
    }
    SortUnique(SortByIssuedAt(s), SortByIssuedAt(s));
  }
}
