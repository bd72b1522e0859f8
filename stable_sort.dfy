/** Python's `list.sort(key=f)` is stable. For keys that are natural numbers
    no greater than `hi`, a stable sort is the same as listing the elements of
    key 0, then those of key 1, ..., each bucket in its original order. */
module StableSort {

  /** The elements of `s` whose key is `k`, in their order in `s`. */
  function Bucket<T>(s: seq<T>, key: T -> nat, k: nat): (r: seq<T>)
    ensures |r| <= |s|
  {
    if s == [] then [] else (if key(s[0]) == k then [s[0]] else []) + Bucket(s[1..], key, k)
  }

  /** A bucket holds elements of `s` of key `k` only. */
  lemma {:induction false} BucketMembers<T>(s: seq<T>, key: T -> nat, k: nat)
    ensures forall x :: x in Bucket(s, key, k) ==> x in s && key(x) == k
  {
    if s != [] {
      BucketMembers(s[1..], key, k);
      forall x | x in Bucket(s, key, k) ensures x in s && key(x) == k {
        if x != s[0] || key(s[0]) != k {
          assert x in Bucket(s[1..], key, k);
        }
      }
    }
  }

  /** The buckets lo, lo + 1, ..., hi one after the other. */
  function Buckets<T>(s: seq<T>, key: T -> nat, lo: nat, hi: nat): seq<T>
    decreases hi + 1 - lo
  {
    if lo > hi then [] else Bucket(s, key, lo) + Buckets(s, key, lo + 1, hi)
  }

  /** The stable sort of `s` by `key`, whose values are at most `hi`. */
  function SortByKey<T>(s: seq<T>, key: T -> nat, hi: nat): seq<T> {
    Buckets(s, key, 0, hi)
  }

  ghost predicate SortedBy<T>(s: seq<T>, key: T -> nat) {
    forall i, j :: 0 <= i < j < |s| ==> key(s[i]) <= key(s[j])
  }

  ghost predicate KeysAtMost<T>(s: seq<T>, key: T -> nat, hi: nat) {
    forall i :: 0 <= i < |s| ==> key(s[i]) <= hi
  }

  /** The elements of `s` whose key is at least `lo`. */
  function AtLeast<T>(s: seq<T>, key: T -> nat, lo: nat): seq<T> {
    if s == [] then [] else (if key(s[0]) >= lo then [s[0]] else []) + AtLeast(s[1..], key, lo)
  }

  lemma {:induction false} BucketAppend<T>(a: seq<T>, b: seq<T>, key: T -> nat, k: nat)
    ensures Bucket(a + b, key, k) == Bucket(a, key, k) + Bucket(b, key, k)
  {
    if a == [] {
      assert a + b == b;
    } else {
      assert (a + b)[0] == a[0];
      assert (a + b)[1..] == a[1..] + b;
      BucketAppend(a[1..], b, key, k);
      calc {
        Bucket(a + b, key, k);
        (if key(a[0]) == k then [a[0]] else []) + Bucket(a[1..] + b, key, k);
        (if key(a[0]) == k then [a[0]] else []) + (Bucket(a[1..], key, k) + Bucket(b, key, k));
        ((if key(a[0]) == k then [a[0]] else []) + Bucket(a[1..], key, k)) + Bucket(b, key, k);
        Bucket(a, key, k) + Bucket(b, key, k);
      }
    }
  }

  lemma {:induction false} BucketOfBucket<T>(s: seq<T>, key: T -> nat, j: nat, k: nat)
    ensures Bucket(Bucket(s, key, j), key, k) == if j == k then Bucket(s, key, k) else []
  {
    if s != [] {
      var head := if key(s[0]) == j then [s[0]] else [];
      BucketAppend(head, Bucket(s[1..], key, j), key, k);
      BucketOfBucket(s[1..], key, j, k);
    }
  }

  lemma {:induction false} BucketOfBuckets<T>(s: seq<T>, key: T -> nat, lo: nat, hi: nat, k: nat)
    ensures Bucket(Buckets(s, key, lo, hi), key, k) == if lo <= k <= hi then Bucket(s, key, k) else []
    decreases hi + 1 - lo
  {
    if lo <= hi {
      BucketAppend(Bucket(s, key, lo), Buckets(s, key, lo + 1, hi), key, k);
      BucketOfBucket(s, key, lo, k);
      BucketOfBuckets(s, key, lo + 1, hi, k);
      if k == lo {
        assert Bucket(s, key, k) + [] == Bucket(s, key, k);
      } else {
        assert [] + Bucket(Buckets(s, key, lo + 1, hi), key, k) == Bucket(Buckets(s, key, lo + 1, hi), key, k);
      }
    }
  }

  lemma {:induction false} BucketBeyond<T>(s: seq<T>, key: T -> nat, hi: nat, k: nat)
    requires KeysAtMost(s, key, hi) && hi < k
    ensures Bucket(s, key, k) == []
  {
    if s != [] {
      assert KeysAtMost(s[1..], key, hi) by {
        forall i | 0 <= i < |s[1..]| ensures key(s[1..][i]) <= hi {
          assert s[1..][i] == s[i + 1];
        }
      }
      BucketBeyond(s[1..], key, hi, k);
    }
  }

  lemma {:induction false} BucketsKeys<T>(s: seq<T>, key: T -> nat, lo: nat, hi: nat)
    ensures forall x :: x in Buckets(s, key, lo, hi) ==> lo <= key(x) <= hi
    decreases hi + 1 - lo
  {
    if lo <= hi {
      BucketsKeys(s, key, lo + 1, hi);
      BucketMembers(s, key, lo);
    }
  }

  /** Every key in `a` is at most every key in `b`. */
  ghost predicate KeysBelow<T>(a: seq<T>, b: seq<T>, key: T -> nat) {
    forall i, j :: 0 <= i < |a| && 0 <= j < |b| ==> key(a[i]) <= key(b[j])
  }

  lemma SortedAppend<T>(a: seq<T>, b: seq<T>, key: T -> nat)
    requires SortedBy(a, key) && SortedBy(b, key) && KeysBelow(a, b, key)
    ensures SortedBy(a + b, key)
  {
    forall i, j | 0 <= i < j < |a + b| ensures key((a + b)[i]) <= key((a + b)[j]) {
      if j < |a| {
        assert (a + b)[i] == a[i] && (a + b)[j] == a[j];
      } else if i < |a| {
        assert (a + b)[i] == a[i] && (a + b)[j] == b[j - |a|];
      } else {
        assert (a + b)[i] == b[i - |a|] && (a + b)[j] == b[j - |a|];
      }
    }
  }

  lemma BucketSorted<T>(s: seq<T>, key: T -> nat, k: nat)
    ensures SortedBy(Bucket(s, key, k), key)
  {
    BucketMembers(s, key, k);
    forall i, j | 0 <= i < j < |Bucket(s, key, k)| ensures key(Bucket(s, key, k)[i]) <= key(Bucket(s, key, k)[j]) {
      assert Bucket(s, key, k)[i] in Bucket(s, key, k);
      assert Bucket(s, key, k)[j] in Bucket(s, key, k);
    }
  }

  lemma BucketBeforeBuckets<T>(s: seq<T>, key: T -> nat, lo: nat, hi: nat)
    ensures KeysBelow(Bucket(s, key, lo), Buckets(s, key, lo + 1, hi), key)
  {
    var b, rest := Bucket(s, key, lo), Buckets(s, key, lo + 1, hi);
    BucketsKeys(s, key, lo + 1, hi);
    BucketMembers(s, key, lo);
    forall i, j | 0 <= i < |b| && 0 <= j < |rest| ensures key(b[i]) <= key(rest[j]) {
      assert b[i] in b && rest[j] in rest;
    }
  }

  lemma {:induction false} BucketsSorted<T>(s: seq<T>, key: T -> nat, lo: nat, hi: nat)
    ensures SortedBy(Buckets(s, key, lo, hi), key)
    decreases hi + 1 - lo
  {
    if lo <= hi {
      BucketsSorted(s, key, lo + 1, hi);
      BucketSorted(s, key, lo);
      BucketBeforeBuckets(s, key, lo, hi);
      SortedAppend(Bucket(s, key, lo), Buckets(s, key, lo + 1, hi), key);
    }
  }

  lemma {:induction false} AtLeastSplit<T>(s: seq<T>, key: T -> nat, lo: nat)
    ensures multiset(AtLeast(s, key, lo)) == multiset(Bucket(s, key, lo)) + multiset(AtLeast(s, key, lo + 1))
  {
    if s != [] {
      AtLeastSplit(s[1..], key, lo);
    }
  }

  lemma {:induction false} AtLeastBeyond<T>(s: seq<T>, key: T -> nat, hi: nat)
    requires KeysAtMost(s, key, hi)
    ensures AtLeast(s, key, hi + 1) == []
  {
    if s != [] {
      assert KeysAtMost(s[1..], key, hi) by {
        forall i | 0 <= i < |s[1..]| ensures key(s[1..][i]) <= hi {
          assert s[1..][i] == s[i + 1];
        }
      }
      AtLeastBeyond(s[1..], key, hi);
    }
  }

  lemma {:induction false} AtLeastZero<T>(s: seq<T>, key: T -> nat)
    ensures AtLeast(s, key, 0) == s
  {
    if s != [] {
      AtLeastZero(s[1..], key);
    }
  }

  lemma {:induction false} BucketsPermutation<T>(s: seq<T>, key: T -> nat, lo: nat, hi: nat)
    requires KeysAtMost(s, key, hi)
    ensures multiset(Buckets(s, key, lo, hi)) == multiset(AtLeast(s, key, lo))
    decreases hi + 1 - lo
  {
    if lo <= hi {
      BucketsPermutation(s, key, lo + 1, hi);
      AtLeastSplit(s, key, lo);
    } else {
      AtLeastBeyond(s, key, hi);
      if lo > hi + 1 {
        assert AtLeast(s, key, lo) == [] by {
          AtLeastMonotone(s, key, hi + 1, lo);
        }
      }
    }
  }

  lemma {:induction false} AtLeastMonotone<T>(s: seq<T>, key: T -> nat, lo: nat, lo': nat)
    requires lo <= lo' && AtLeast(s, key, lo) == []
    ensures AtLeast(s, key, lo') == []
  {
    if s != [] {
      AtLeastMonotone(s[1..], key, lo, lo');
    }
  }

  /** The sorted list is ordered by key. */
  lemma SortByKeySorted<T>(s: seq<T>, key: T -> nat, hi: nat)
    ensures SortedBy(SortByKey(s, key, hi), key)
  {
    BucketsSorted(s, key, 0, hi);
  }

  /** Sorting neither loses nor adds elements. */
  lemma SortByKeyPermutation<T>(s: seq<T>, key: T -> nat, hi: nat)
    requires KeysAtMost(s, key, hi)
    ensures multiset(SortByKey(s, key, hi)) == multiset(s)
  {
    BucketsPermutation(s, key, 0, hi);
    AtLeastZero(s, key);
  }

  /** Stability: elements of equal key keep their relative order. */
  lemma SortByKeyStable<T>(s: seq<T>, key: T -> nat, hi: nat, k: nat)
    requires KeysAtMost(s, key, hi)
    ensures Bucket(SortByKey(s, key, hi), key, k) == Bucket(s, key, k)
  {
    BucketOfBuckets(s, key, 0, hi, k);
    if hi < k {
      BucketBeyond(s, key, hi, k);
    }
  }
}
