/**
 * `slice::sort_by_key`: a stable sort by a key under a total order, given
 * here as an insertion sort, together with the sequence operations the
 * launcher applies to a sorted list (reversal, truncation).
 */
module Sorting {

  /** `le` is a total order on keys. */
  ghost predicate TotalOrder<K(!new)>(le: (K, K) -> bool)
  {
    && (forall a, b :: le(a, b) || le(b, a))
    && (forall a, b :: le(a, b) && le(b, a) ==> a == b)
    && (forall a, b, c :: le(a, b) && le(b, c) ==> le(a, c))
  }

  /** The keys of `s` never decrease. */
  ghost predicate SortedBy<T, K>(s: seq<T>, key: T -> K, le: (K, K) -> bool)
  {
    forall i, j :: 0 <= i < j < |s| ==> le(key(s[i]), key(s[j]))
  }

  /** The elements of `s` whose key is `k`, in their order in `s`. */
  function SameKey<T, K(==)>(s: seq<T>, key: T -> K, k: K): seq<T>
    decreases |s|
  {
    if s == [] then []
    else (if key(s[0]) == k then [s[0]] else []) + SameKey(s[1..], key, k)
  }

  /** Places `x` in front of the first element whose key is not below its own. */
  function InsertBy<T, K>(x: T, s: seq<T>, key: T -> K, le: (K, K) -> bool): seq<T>
    decreases |s|
  {
    if s == [] then [x]
    else if le(key(x), key(s[0])) then [x] + s
    else [s[0]] + InsertBy(x, s[1..], key, le)
  }

  /** Insertion sort: each element goes in front of the later ones with an equal key. */
  function SortBy<T, K>(s: seq<T>, key: T -> K, le: (K, K) -> bool): seq<T>
    decreases |s|
  {
    if s == [] then [] else InsertBy(s[0], SortBy(s[1..], key, le), key, le)
  }

  // ---------------------------------------------------------------------
  // The sort is a permutation
  // ---------------------------------------------------------------------

  lemma {:induction false} InsertByPermutes<T, K>(x: T, s: seq<T>, key: T -> K, le: (K, K) -> bool)
    ensures multiset(InsertBy(x, s, key, le)) == multiset{x} + multiset(s)
    decreases |s|
  {
    if s != [] && !le(key(x), key(s[0])) {
      InsertByPermutes(x, s[1..], key, le);
      assert s == [s[0]] + s[1..];
    }
  }

  lemma {:induction false} SortByPermutes<T, K>(s: seq<T>, key: T -> K, le: (K, K) -> bool)
    ensures multiset(SortBy(s, key, le)) == multiset(s)
    ensures |SortBy(s, key, le)| == |s|
    decreases |s|
  {
    if s != [] {
      SortByPermutes(s[1..], key, le);
      InsertByPermutes(s[0], SortBy(s[1..], key, le), key, le);
      assert s == [s[0]] + s[1..];
      assert |multiset(SortBy(s, key, le))| == |multiset(s)|;
    }
  }

  // ---------------------------------------------------------------------
  // The sort orders by key
  // ---------------------------------------------------------------------

  lemma {:induction false} InsertBySorted<T, K(!new)>(x: T, s: seq<T>, key: T -> K, le: (K, K) -> bool)
    requires TotalOrder(le)
    requires SortedBy(s, key, le)
    ensures SortedBy(InsertBy(x, s, key, le), key, le)
    decreases |s|
  {
    if s != [] {
      if le(key(x), key(s[0])) {
        var r := [x] + s;
        forall i, j | 0 <= i < j < |r| ensures le(key(r[i]), key(r[j])) {
          if i == 0 {
            assert r[j] == s[j - 1];
            if j > 1 {
              assert le(key(s[0]), key(s[j - 1]));
            }
          } else {
            assert r[i] == s[i - 1] && r[j] == s[j - 1];
          }
        }
      } else {
        InsertBySorted(x, s[1..], key, le);
        InsertByPermutes(x, s[1..], key, le);
        var t := InsertBy(x, s[1..], key, le);
        var r := [s[0]] + t;
        forall i, j | 0 <= i < j < |r| ensures le(key(r[i]), key(r[j])) {
          if i == 0 {
            assert r[j] == t[j - 1];
            assert r[j] in multiset{x} + multiset(s[1..]);
            if r[j] == x {
              assert le(key(s[0]), key(x));
            } else {
              assert r[j] in s[1..];
              var m :| 0 <= m < |s[1..]| && s[1..][m] == r[j];
              assert s[m + 1] == r[j];
            }
          } else {
            assert r[i] == t[i - 1] && r[j] == t[j - 1];
          }
        }
      }
    }
  }

  lemma {:induction false} SortBySorted<T, K(!new)>(s: seq<T>, key: T -> K, le: (K, K) -> bool)
    requires TotalOrder(le)
    ensures SortedBy(SortBy(s, key, le), key, le)
    decreases |s|
  {
    if s != [] {
      SortBySorted(s[1..], key, le);
      InsertBySorted(s[0], SortBy(s[1..], key, le), key, le);
    }
  }

  // ---------------------------------------------------------------------
  // The sort is stable
  // ---------------------------------------------------------------------

  lemma {:induction false} InsertByStable<T, K(!new)>(x: T, s: seq<T>, key: T -> K, le: (K, K) -> bool, k: K)
    requires forall a :: le(a, a)
    ensures SameKey(InsertBy(x, s, key, le), key, k)
         == (if key(x) == k then [x] else []) + SameKey(s, key, k)
    decreases |s|
  {
    var head := if key(x) == k then [x] else [];
    if s == [] {
      assert SameKey([x], key, k) == head + SameKey([x][1..], key, k);
      assert [x][1..] == [];
    } else if le(key(x), key(s[0])) {
      assert ([x] + s)[1..] == s;
      assert SameKey([x] + s, key, k) == head + SameKey(s, key, k);
    } else {
      assert le(key(x), key(x));
      assert key(s[0]) != key(x);
      InsertByStable(x, s[1..], key, le, k);
      var t := InsertBy(x, s[1..], key, le);
      assert ([s[0]] + t)[1..] == t;
      var first := if key(s[0]) == k then [s[0]] else [];
      calc {
        SameKey(InsertBy(x, s, key, le), key, k);
        SameKey([s[0]] + t, key, k);
        first + SameKey(t, key, k);
        first + (head + SameKey(s[1..], key, k));
        { assert first == [] || head == []; }
        head + (first + SameKey(s[1..], key, k));
        head + SameKey(s, key, k);
      }
    }
  }

  /** Elements with equal keys keep their relative order. */
  lemma {:induction false} SortByStable<T, K(!new)>(s: seq<T>, key: T -> K, le: (K, K) -> bool, k: K)
    requires TotalOrder(le)
    ensures SameKey(SortBy(s, key, le), key, k) == SameKey(s, key, k)
    decreases |s|
  {
    if s != [] {
      SortByStable(s[1..], key, le, k);
      InsertByStable(s[0], SortBy(s[1..], key, le), key, le, k);
    }
  }

  // ---------------------------------------------------------------------
  // Selecting by key distributes over concatenation
  // ---------------------------------------------------------------------

  lemma {:induction false} SameKeyAppend<T, K>(a: seq<T>, b: seq<T>, key: T -> K, k: K)
    ensures SameKey(a + b, key, k) == SameKey(a, key, k) + SameKey(b, key, k)
    decreases |a|
  {
    if a == [] {
      assert a + b == b;
    } else {
      var head := if key(a[0]) == k then [a[0]] else [];
      assert (a + b)[0] == a[0];
      assert (a + b)[1..] == a[1..] + b;
      SameKeyAppend(a[1..], b, key, k);
      calc {
        SameKey(a + b, key, k);
        head + SameKey(a[1..] + b, key, k);
        head + (SameKey(a[1..], key, k) + SameKey(b, key, k));
        (head + SameKey(a[1..], key, k)) + SameKey(b, key, k);
        SameKey(a, key, k) + SameKey(b, key, k);
      }
    }
  }

  // ---------------------------------------------------------------------
  // Reversal (`into_iter().rev()`) and truncation
  // ---------------------------------------------------------------------

  function Reverse<T>(s: seq<T>): seq<T>
    decreases |s|
  {
    if s == [] then [] else Reverse(s[1..]) + [s[0]]
  }

  lemma {:induction false} ReverseAt<T>(s: seq<T>)
    ensures |Reverse(s)| == |s|
    ensures forall i :: 0 <= i < |s| ==> Reverse(s)[i] == s[|s| - 1 - i]
    decreases |s|
  {
    if s != [] {
      ReverseAt(s[1..]);
    }
  }

  lemma {:induction false} ReverseAppend<T>(a: seq<T>, b: seq<T>)
    ensures Reverse(a + b) == Reverse(b) + Reverse(a)
    decreases |a|
  {
    if a == [] {
      assert a + b == b;
    } else {
      assert (a + b)[1..] == a[1..] + b;
      ReverseAppend(a[1..], b);
    }
  }

  lemma {:induction false} ReverseMultiset<T>(s: seq<T>)
    ensures multiset(Reverse(s)) == multiset(s)
    decreases |s|
  {
    if s != [] {
      ReverseMultiset(s[1..]);
      assert s == [s[0]] + s[1..];
    }
  }

  lemma {:induction false} SameKeyReverse<T, K>(s: seq<T>, key: T -> K, k: K)
    ensures SameKey(Reverse(s), key, k) == Reverse(SameKey(s, key, k))
    decreases |s|
  {
    if s != [] {
      SameKeyReverse(s[1..], key, k);
      SameKeyAppend(Reverse(s[1..]), [s[0]], key, k);
      var head := if key(s[0]) == k then [s[0]] else [];
      ReverseAppend(head, SameKey(s[1..], key, k));
      assert Reverse(head) == head;
      assert SameKey([s[0]], key, k) == head;
    }
  }

  /** The first `n` elements, or all of them when there are fewer. */
  function Take<T>(s: seq<T>, n: nat): (r: seq<T>)
    ensures |r| == if |s| <= n then |s| else n
    ensures forall i :: 0 <= i < |r| ==> r[i] == s[i]
  {
    if |s| <= n then s else s[..n]
  }

  predicate IsPrefix<T(==)>(a: seq<T>, b: seq<T>)
  {
    |a| <= |b| && b[..|a|] == a
  }
}
