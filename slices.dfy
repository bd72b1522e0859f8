/** `get_slices_ordered_by_size`: every contiguous slice of a sequence,
    shortest first. */
module Slices {
  import opened StableSort

  /** The half-open index range `items[start:end]`. */
  datatype Span = Span(start: nat, end: nat)

  function Len(sp: Span): nat {
    if sp.start <= sp.end then sp.end - sp.start else 0
  }

  /** Length first, then start index: the order the slices come out in. */
  ghost predicate Precedes(x: Span, y: Span) {
    Len(x) < Len(y) || (Len(x) == Len(y) && x.start < y.start)
  }

  /** The inner loop `for j in range(i + 1, ...)` stopped before `j`:
      the spans (i, i + 1), ..., (i, j - 1). */
  function RowTo(i: nat, j: nat): seq<Span>
    decreases j
  {
    if j <= i + 1 then [] else RowTo(i, j - 1) + [Span(i, j - 1)]
  }

  /** The first `i` rounds of the outer loop over a sequence of length `n`. */
  function RowsTo(n: nat, i: nat): seq<Span> {
    if i == 0 then [] else RowsTo(n, i - 1) + RowTo(i - 1, n + 1)
  }

  lemma {:induction false} RowToMembers(i: nat, j: nat, sp: Span)
    ensures sp in RowTo(i, j) <==> sp.start == i && i < sp.end < j
    decreases j
  {
    if j > i + 1 {
      RowToMembers(i, j - 1, sp);
    }
  }

  lemma {:induction false} RowsToMembers(n: nat, i: nat, sp: Span)
    ensures sp in RowsTo(n, i) <==> sp.start < i && sp.start < sp.end <= n
  {
    if i > 0 {
      var a, b := RowsTo(n, i - 1), RowTo(i - 1, n + 1);
      assert RowsTo(n, i) == a + b;
      RowsToMembers(n, i - 1, sp);
      RowToMembers(i - 1, n + 1, sp);
      assert sp in a + b <==> sp in a || sp in b;
    }
  }

  /** The spans in the order the double loop appends them. */
  function Generated(n: nat): seq<Span> {
    RowsTo(n, n)
  }

  /** The spans after `slices.sort(key=len)`. */
  function Ordered(n: nat): seq<Span> {
    SortByKey(Generated(n), Len, n)
  }

  ghost predicate AllWithin(sps: seq<Span>, n: nat) {
    forall sp :: sp in sps ==> sp.start <= sp.end <= n
  }

  /** `items[i:j]`; a span reaching past the end is clipped away, as Python
      slicing would, though no such span is ever used. */
  function Slice<T>(items: seq<T>, sp: Span): seq<T> {
    if sp.start <= sp.end <= |items| then items[sp.start..sp.end] else []
  }

  /** `tuple(items[i:j])` for each span, in order. */
  function Project<T>(items: seq<T>, sps: seq<Span>): (r: seq<seq<T>>)
    ensures |r| == |sps|
  {
    if sps == [] then [] else Project(items, sps[..|sps| - 1]) + [Slice(items, sps[|sps| - 1])]
  }

  lemma {:induction false} ProjectAt<T>(items: seq<T>, sps: seq<Span>, k: nat)
    requires k < |sps|
    ensures Project(items, sps)[k] == Slice(items, sps[k])
  {
    if k < |sps| - 1 {
      ProjectAt(items, sps[..|sps| - 1], k);
    }
  }

  lemma ProjectSnoc<T>(items: seq<T>, sps: seq<Span>, sp: Span)
    ensures Project(items, sps + [sp]) == Project(items, sps) + [Slice(items, sp)]
  {
    assert (sps + [sp])[..|sps|] == sps;
  }

  function Length<T>(s: seq<T>): nat {
    |s|
  }

  /** `get_slices_ordered_by_size(items)`. */
  method GetSlicesOrderedBySize<T>(items: seq<T>) returns (slices: seq<seq<T>>)
    ensures AllWithin(Ordered(|items|), |items|)
    ensures slices == Project(items, Ordered(|items|))
  {
    var n := |items|;
    var generated := AllSlices(items);
    OrderedMembers(n);
    slices := SortByKey(generated, Length, n);
    ProjectSorted(items, Generated(n));
  }

  /** The inner loop of `get_slices_ordered_by_size`: `items[i:j]` for
      `j` from `i + 1` to the length, in that order. */
  method SlicesFrom<T>(items: seq<T>, i: nat) returns (row: seq<seq<T>>)
    requires i < |items|
    ensures row == Project(items, RowTo(i, |items| + 1))
  {
    row := [];
    for j := i + 1 to |items| + 1
      invariant row == Project(items, RowTo(i, j))
    {
      ProjectSnoc(items, RowTo(i, j), Span(i, j));
      row := row + [items[i..j]];
    }
  }

  /** The double loop of `get_slices_ordered_by_size`, before the sort. */
  method AllSlices<T>(items: seq<T>) returns (generated: seq<seq<T>>)
    ensures generated == Project(items, Generated(|items|))
  {
    var n := |items|;
    generated := [];
    for i := 0 to n
      invariant generated == Project(items, RowsTo(n, i))
    {
      var row := SlicesFrom(items, i);
      ProjectRowsTo(items, i);
      generated := generated + row;
    }
  }

  /** One more round of the outer loop appends its row of slices. */
  lemma ProjectRowsTo<T>(items: seq<T>, i: nat)
    ensures Project(items, RowsTo(|items|, i + 1))
              == Project(items, RowsTo(|items|, i)) + Project(items, RowTo(i, |items| + 1))
  {
    ProjectAppend(items, RowsTo(|items|, i), RowTo(i, |items| + 1));
  }

  lemma {:induction false} ProjectAppend<T>(items: seq<T>, a: seq<Span>, b: seq<Span>)
    ensures Project(items, a + b) == Project(items, a) + Project(items, b)
    decreases |b|
  {
    if b == [] {
      assert a + b == a;
    } else {
      assert (a + b)[..|a + b| - 1] == a + b[..|b| - 1];
      assert (a + b)[|a + b| - 1] == b[|b| - 1];
      ProjectAppend(items, a, b[..|b| - 1]);
      calc {
        Project(items, a + b);
        Project(items, a + b[..|b| - 1]) + [Slice(items, b[|b| - 1])];
        (Project(items, a) + Project(items, b[..|b| - 1])) + [Slice(items, b[|b| - 1])];
        Project(items, a) + (Project(items, b[..|b| - 1]) + [Slice(items, b[|b| - 1])]);
        Project(items, a) + Project(items, b);
      }
    }
  }

  lemma {:induction false} ProjectBucket<T>(items: seq<T>, sps: seq<Span>, k: nat)
    requires AllWithin(sps, |items|)
    ensures AllWithin(Bucket(sps, Len, k), |items|)
    ensures Bucket(Project(items, sps), Length, k) == Project(items, Bucket(sps, Len, k))
  {
    if sps != [] {
      var h, t := sps[0], sps[1..];
      var x := Slice(items, h);
      var head := if Len(h) == k then [h] else [];
      assert sps == [h] + t;
      assert AllWithin(t, |items|) by {
        forall sp | sp in t ensures sp in sps { }
      }
      ProjectAppend(items, [h], t);
      assert Project(items, [h]) == [x] by {
        assert [h][..0] == [];
      }
      var p := Project(items, t);
      assert Bucket([x] + p, Length, k) == (if |x| == k then [x] else []) + Bucket(p, Length, k) by {
        assert ([x] + p)[1..] == p;
      }
      ProjectBucket(items, t, k);
      assert Bucket(sps, Len, k) == head + Bucket(t, Len, k);
      ProjectAppend(items, head, Bucket(t, Len, k));
      assert Project(items, head) == if |x| == k then [x] else [] by {
        if Len(h) == k {
          assert [h][..0] == [];
        }
      }
    }
  }

  lemma {:induction false} ProjectBuckets<T>(items: seq<T>, sps: seq<Span>, lo: nat, hi: nat)
    requires AllWithin(sps, |items|)
    ensures AllWithin(Buckets(sps, Len, lo, hi), |items|)
    ensures Buckets(Project(items, sps), Length, lo, hi) == Project(items, Buckets(sps, Len, lo, hi))
    decreases hi + 1 - lo
  {
    if lo <= hi {
      ProjectBucket(items, sps, lo);
      ProjectBuckets(items, sps, lo + 1, hi);
      AllWithinAppend(Bucket(sps, Len, lo), Buckets(sps, Len, lo + 1, hi), |items|);
      ProjectAppend(items, Bucket(sps, Len, lo), Buckets(sps, Len, lo + 1, hi));
    }
  }

  lemma AllWithinAppend(a: seq<Span>, b: seq<Span>, n: nat)
    requires AllWithin(a, n) && AllWithin(b, n)
    ensures AllWithin(a + b, n)
  {
    forall sp | sp in a + b ensures sp.start <= sp.end <= n {
      assert sp in a || sp in b;
    }
  }

  /** Sorting the slices by length is sorting their spans by length. */
  lemma ProjectSorted<T>(items: seq<T>, sps: seq<Span>)
    requires AllWithin(sps, |items|)
    ensures AllWithin(SortByKey(sps, Len, |items|), |items|)
    ensures SortByKey(Project(items, sps), Length, |items|) == Project(items, SortByKey(sps, Len, |items|))
  {
    ProjectBuckets(items, sps, 0, |items|);
  }

  // ---- the shape of the sorted list ----

  /** The spans of length `L` whose start is below `i`, by increasing start. */
  function SameLength(n: nat, L: nat, i: nat): seq<Span> {
    if i == 0 then []
    else SameLength(n, L, i - 1) + (if 1 <= L && i - 1 + L <= n then [Span(i - 1, i - 1 + L)] else [])
  }

  /** The spans of length L, then those of length L + 1, ..., up to length n. */
  function BySize(n: nat, L: nat): seq<Span>
    decreases n + 1 - L
  {
    if L > n then [] else SameLength(n, L, n) + BySize(n, L + 1)
  }

  lemma {:induction false} BucketOfRowTo(i: nat, j: nat, L: nat)
    ensures Bucket(RowTo(i, j), Len, L) == if 1 <= L && i + L < j then [Span(i, i + L)] else []
    decreases j
  {
    if j <= i + 1 {
      assert RowTo(i, j) == [];
    } else {
      var sp := Span(i, j - 1);
      assert RowTo(i, j) == RowTo(i, j - 1) + [sp];
      BucketAppend(RowTo(i, j - 1), [sp], Len, L);
      BucketOfRowTo(i, j - 1, L);
      BucketSingle(sp, L);
      assert Len(sp) == j - 1 - i;
    }
  }

  lemma BucketSingle(sp: Span, L: nat)
    ensures Bucket([sp], Len, L) == if Len(sp) == L then [sp] else []
  {
    assert [sp][1..] == [];
  }

  lemma {:induction false} BucketOfRowsTo(n: nat, i: nat, L: nat)
    ensures Bucket(RowsTo(n, i), Len, L) == SameLength(n, L, i)
  {
    if i > 0 {
      var prev, row := RowsTo(n, i - 1), RowTo(i - 1, n + 1);
      assert RowsTo(n, i) == prev + row;
      BucketAppend(prev, row, Len, L);
      BucketOfRowsTo(n, i - 1, L);
      BucketOfRowTo(i - 1, n + 1, L);
      assert Bucket(row, Len, L) == if 1 <= L && i - 1 + L <= n then [Span(i - 1, i - 1 + L)] else [];
    }
  }

  lemma {:induction false} BucketsOfGenerated(n: nat, L: nat)
    ensures Buckets(Generated(n), Len, L, n) == BySize(n, L)
    decreases n + 1 - L
  {
    if L <= n {
      BucketOfRowsTo(n, n, L);
      BucketsOfGenerated(n, L + 1);
    }
  }

  lemma OrderedIsBySize(n: nat)
    ensures Ordered(n) == BySize(n, 0)
  {
    BucketsOfGenerated(n, 0);
  }

  lemma {:induction false} SameLengthShape(n: nat, L: nat, i: nat)
    requires 1 <= L <= n
    ensures |SameLength(n, L, i)| == if i <= n + 1 - L then i else n + 1 - L
    ensures forall k :: 0 <= k < |SameLength(n, L, i)| ==> SameLength(n, L, i)[k] == Span(k, k + L)
  {
    if i > 0 {
      SameLengthShape(n, L, i - 1);
    }
  }

  lemma {:induction false} SameLengthEmpty(n: nat, L: nat, i: nat)
    requires L == 0 || n < L
    ensures SameLength(n, L, i) == []
  {
    if i > 0 {
      SameLengthEmpty(n, L, i - 1);
    }
  }

  lemma {:induction false} BySizeLengths(n: nat, L: nat)
    ensures forall sp :: sp in BySize(n, L) ==> L <= Len(sp) <= n && sp.start < sp.end <= n
    decreases n + 1 - L
  {
    if L <= n {
      BySizeLengths(n, L + 1);
      if L == 0 {
        SameLengthEmpty(n, L, n);
      } else {
        SameLengthShape(n, L, n);
        forall sp | sp in SameLength(n, L, n) ensures L <= Len(sp) <= n && sp.start < sp.end <= n {
          var k :| 0 <= k < |SameLength(n, L, n)| && SameLength(n, L, n)[k] == sp;
        }
      }
    }
  }

  /** Each span precedes the ones after it. */
  ghost predicate InOrder(sps: seq<Span>) {
    forall a, b :: 0 <= a < b < |sps| ==> Precedes(sps[a], sps[b])
  }

  /** Every span of `x` precedes every span of `y`. */
  ghost predicate AllPrecede(x: seq<Span>, y: seq<Span>) {
    forall a, b :: 0 <= a < |x| && 0 <= b < |y| ==> Precedes(x[a], y[b])
  }

  lemma InOrderAppend(x: seq<Span>, y: seq<Span>)
    requires InOrder(x) && InOrder(y) && AllPrecede(x, y)
    ensures InOrder(x + y)
  {
    forall a, b | 0 <= a < b < |x + y| ensures Precedes((x + y)[a], (x + y)[b]) {
      if b < |x| {
        assert (x + y)[a] == x[a] && (x + y)[b] == x[b];
      } else if a < |x| {
        assert (x + y)[a] == x[a] && (x + y)[b] == y[b - |x|];
      } else {
        assert (x + y)[a] == y[a - |x|] && (x + y)[b] == y[b - |x|];
      }
    }
  }

  lemma SameLengthInOrder(n: nat, L: nat)
    requires 1 <= L <= n
    ensures InOrder(SameLength(n, L, n))
  {
    SameLengthShape(n, L, n);
  }

  lemma SameLengthBeforeLonger(n: nat, L: nat)
    requires 1 <= L <= n
    ensures AllPrecede(SameLength(n, L, n), BySize(n, L + 1))
  {
    SameLengthShape(n, L, n);
    BySizeLengths(n, L + 1);
    var x, y := SameLength(n, L, n), BySize(n, L + 1);
    forall a, b | 0 <= a < |x| && 0 <= b < |y| ensures Precedes(x[a], y[b]) {
      assert y[b] in y;
    }
  }

  lemma {:induction false} BySizeStrict(n: nat, L: nat)
    ensures InOrder(BySize(n, L))
    decreases n + 1 - L
  {
    if L <= n {
      BySizeStrict(n, L + 1);
      if L == 0 {
        SameLengthEmpty(n, L, n);
        assert BySize(n, L) == [] + BySize(n, L + 1);
      } else {
        SameLengthInOrder(n, L);
        SameLengthBeforeLonger(n, L);
        InOrderAppend(SameLength(n, L, n), BySize(n, L + 1));
      }
    }
  }

  lemma {:induction false} BySizeCount(n: nat, L: nat)
    requires 1 <= L <= n + 1
    ensures 2 * |BySize(n, L)| == (n + 1 - L) * (n + 2 - L)
    decreases n + 1 - L
  {
    if L <= n {
      BySizeCount(n, L + 1);
      SameLengthShape(n, L, n);
      var m := n + 1 - L;
      assert 2 * m + (m - 1) * m == m * (m + 1);
    }
  }

  /** Every span used is inside the sequence. */
  lemma OrderedMembers(n: nat)
    ensures AllWithin(Generated(n), n)
    ensures AllWithin(Ordered(n), n)
    ensures KeysAtMost(Generated(n), Len, n)
  {
    forall sp ensures sp in Generated(n) <==> sp.start < sp.end <= n {
      RowsToMembers(n, n, sp);
    }
    OrderedIsBySize(n);
    BySizeLengths(n, 0);
    var g := Generated(n);
    assert forall i :: 0 <= i < |g| ==> g[i] in g;
  }

  /** Every slice `items[i:j]` with `i < j` is listed, and nothing else. */
  lemma OrderedComplete(n: nat, sp: Span)
    ensures sp in Ordered(n) <==> sp.start < sp.end <= n
  {
    OrderedMembers(n);
    RowsToMembers(n, n, sp);
    SortByKeyPermutation(Generated(n), Len, n);
    assert sp in Ordered(n) <==> sp in multiset(Ordered(n));
    assert sp in Generated(n) <==> sp in multiset(Generated(n));
  }

  /** Slices come by non-decreasing length, equal lengths by increasing start;
      in particular no slice is listed twice. */
  lemma OrderedStrict(n: nat)
    ensures forall a, b :: 0 <= a < b < |Ordered(n)| ==> Precedes(Ordered(n)[a], Ordered(n)[b])
    ensures forall a, b :: 0 <= a < b < |Ordered(n)| ==> Ordered(n)[a] != Ordered(n)[b]
  {
    OrderedIsBySize(n);
    BySizeStrict(n, 0);
  }

  /** There are n(n+1)/2 slices. */
  lemma OrderedCount(n: nat)
    ensures 2 * |Ordered(n)| == n * (n + 1)
  {
    OrderedIsBySize(n);
    SameLengthEmpty(n, 0, n);
    BySizeCount(n, 1);
  }

  /** The sort only reorders what the double loop generated. */
  lemma OrderedPermutesGenerated(n: nat)
    ensures multiset(Ordered(n)) == multiset(Generated(n))
  {
    OrderedMembers(n);
    SortByKeyPermutation(Generated(n), Len, n);
  }

  /** The whole sequence is the last slice; every other slice is shorter. */
  lemma OrderedEndsWithWhole(n: nat)
    requires 1 <= n
    ensures |Ordered(n)| >= 1
    ensures Ordered(n)[|Ordered(n)| - 1] == Span(0, n)
    ensures forall k :: 0 <= k < |Ordered(n)| - 1 ==> Len(Ordered(n)[k]) < n
  {
    var o := Ordered(n);
    OrderedComplete(n, Span(0, n));
    OrderedStrict(n);
    OrderedMembers(n);
    forall k | 0 <= k < |o| ensures Len(o[k]) <= n && (Len(o[k]) == n ==> o[k] == Span(0, n)) {
      assert o[k] in o;
    }
    var p :| 0 <= p < |o| && o[p] == Span(0, n);
    var q := |o| - 1;
    var last := o[q];
    assert Len(last) <= n && (Len(last) == n ==> last == Span(0, n));
    assert p == q;
  }
}
