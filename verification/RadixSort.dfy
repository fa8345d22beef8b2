/**
 Least-significant-digit radix sort of symbols by their 16-bit counts, ping-pong
 between two buffers, skipping the second pass when every high byte is zero.
 */
module RadixSort {
  import opened MinRedundancy

  function Digit(x: SymFreq, pass: nat): (d: nat)
    ensures d < 256
  {
    if pass == 0 then x.key % 256 else x.key / 256
  }

  /** The elements whose digit is `d`, in their original order. */
  function Bucket(s: seq<SymFreq>, pass: nat, d: nat): (r: seq<SymFreq>)
    ensures |r| <= |s|
  {
    if s == [] then [] else
      var last := s[|s| - 1];
      Bucket(s[..|s| - 1], pass, d) + (if Digit(last, pass) == d then [last] else [])
  }

  /** All elements with digits below `m`, by digit. */
  function Buckets(s: seq<SymFreq>, pass: nat, m: nat): seq<SymFreq> {
    if m == 0 then [] else Buckets(s, pass, m - 1) + Bucket(s, pass, m - 1)
  }

  lemma BucketSnoc(s: seq<SymFreq>, i: nat, pass: nat, d: nat)
    requires i < |s|
    ensures Bucket(s[..i + 1], pass, d) == Bucket(s[..i], pass, d) + (if Digit(s[i], pass) == d then [s[i]] else [])
  {
    assert s[..i + 1][..i] == s[..i];
  }

  lemma {:induction false} BucketGrows(s: seq<SymFreq>, i: nat, pass: nat, d: nat)
    requires i <= |s|
    ensures |Bucket(s[..i], pass, d)| <= |Bucket(s, pass, d)|
    decreases |s| - i
  {
    if i < |s| {
      BucketSnoc(s, i, pass, d);
      BucketGrows(s, i + 1, pass, d);
    } else {
      assert s[..i] == s;
    }
  }

  lemma {:induction false} BucketsGrow(s: seq<SymFreq>, pass: nat, d: nat, m: nat)
    requires d <= m
    ensures |Buckets(s, pass, d)| <= |Buckets(s, pass, m)|
    ensures d < m ==> |Buckets(s, pass, d)| + |Bucket(s, pass, d)| <= |Buckets(s, pass, m)|
    decreases m
  {
    if d < m {
      BucketsGrow(s, pass, d, m - 1);
    }
  }

  /** What `x` adds to the first `m` buckets. */
  ghost function Added(x: SymFreq, pass: nat, m: nat): multiset<SymFreq> {
    if Digit(x, pass) < m then multiset{x} else multiset{}
  }

  /** One more item at the end is one more item in its bucket. */
  ghost predicate SnocAdds(s: seq<SymFreq>, x: SymFreq, pass: nat, m: nat) {
    (multiset(Buckets(s + [x], pass, m)) == multiset(Buckets(s, pass, m)) + Added(x, pass, m)) == true
  }

  lemma {:induction false} BucketsSnoc(s: seq<SymFreq>, x: SymFreq, pass: nat, m: nat)
    ensures SnocAdds(s, x, pass, m)
  {
    if m > 0 {
      BucketsSnoc(s, x, pass, m - 1);
      NextBucketSnoc(s, x, pass, m);
    }
  }

  lemma NextBucketSnoc(s: seq<SymFreq>, x: SymFreq, pass: nat, m: nat)
    requires m > 0 && SnocAdds(s, x, pass, m - 1)
    ensures SnocAdds(s, x, pass, m)
  {
    var a, a', b := Buckets(s, pass, m - 1), Buckets(s + [x], pass, m - 1), Bucket(s, pass, m - 1);
    BucketOfSnoc(s, x, pass, m - 1);
    if Digit(x, pass) == m - 1 {
      JoinedHere(a, a', b, x);
    } else {
      JoinedBefore(a, a', b, Added(x, pass, m));
    }
  }

  lemma BucketOfSnoc(s: seq<SymFreq>, x: SymFreq, pass: nat, d: nat)
    ensures Bucket(s + [x], pass, d) == if Digit(x, pass) == d then Bucket(s, pass, d) + [x] else Bucket(s, pass, d)
  {
    assert (s + [x])[..|s|] == s;
  }

  lemma JoinedHere(a: seq<SymFreq>, a': seq<SymFreq>, b: seq<SymFreq>, x: SymFreq)
    requires multiset(a') == multiset(a) + multiset{}
    ensures multiset(a' + (b + [x])) == multiset(a + b) + multiset{x}
  {
  }

  lemma JoinedBefore(a: seq<SymFreq>, a': seq<SymFreq>, b: seq<SymFreq>, added: multiset<SymFreq>)
    requires multiset(a') == multiset(a) + added
    ensures multiset(a' + b) == multiset(a + b) + added
  {
  }

  /** Distributing into buckets loses and invents nothing. */
  lemma {:induction false} BucketsPermute(s: seq<SymFreq>, pass: nat)
    ensures multiset(Buckets(s, pass, 256)) == multiset(s)
  {
    if s == [] {
      EmptyBuckets(pass, 256);
    } else {
      var k := |s| - 1;
      BucketsPermute(s[..k], pass);
      BucketsSnoc(s[..k], s[k], pass, 256);
      assert s[..k] + [s[k]] == s;
    }
  }

  lemma {:induction false} EmptyBuckets(pass: nat, m: nat)
    ensures Buckets([], pass, m) == []
  {
    if m > 0 {
      EmptyBuckets(pass, m - 1);
    }
  }

  lemma BucketsSize(s: seq<SymFreq>, pass: nat)
    ensures |Buckets(s, pass, 256)| == |s|
  {
    BucketsPermute(s, pass);
    assert |multiset(Buckets(s, pass, 256))| == |multiset(s)|;
  }

  lemma {:induction false} BucketDigits(s: seq<SymFreq>, pass: nat, d: nat)
    ensures forall i :: 0 <= i < |Bucket(s, pass, d)| ==> Digit(Bucket(s, pass, d)[i], pass) == d
  {
    if s != [] {
      BucketDigits(s[..|s| - 1], pass, d);
    }
  }

  ghost predicate DigitsSorted(s: seq<SymFreq>, pass: nat) {
    forall i, j :: 0 <= i <= j < |s| ==> Digit(s[i], pass) <= Digit(s[j], pass)
  }

  ghost predicate KeysSorted(s: seq<SymFreq>) {
    forall i, j :: 0 <= i <= j < |s| ==> s[i].key <= s[j].key
  }

  lemma {:induction false} BucketsSorted(s: seq<SymFreq>, pass: nat, m: nat)
    ensures DigitsSorted(Buckets(s, pass, m), pass)
    ensures forall i :: 0 <= i < |Buckets(s, pass, m)| ==> Digit(Buckets(s, pass, m)[i], pass) < m
  {
    if m > 0 {
      BucketsSorted(s, pass, m - 1);
      BucketDigits(s, pass, m - 1);
    }
  }

  /** Filtering keeps an order that already holds. */
  lemma {:induction false} BucketKeepsOrder(s: seq<SymFreq>, pass: nat, d: nat)
    requires DigitsSorted(s, 0)
    ensures DigitsSorted(Bucket(s, pass, d), 0)
    ensures forall i :: 0 <= i < |Bucket(s, pass, d)| ==> Bucket(s, pass, d)[i] in s
  {
    if s != [] {
      var k := |s| - 1;
      BucketKeepsOrder(s[..k], pass, d);
      forall x | x in s[..k] ensures x in s && Digit(x, 0) <= Digit(s[k], 0) {
        var i :| 0 <= i < k && s[..k][i] == x;
        assert s[i] == x;
      }
    }
  }

  lemma {:induction false} SecondPassSorts(s: seq<SymFreq>, m: nat)
    requires DigitsSorted(s, 0)
    ensures KeysSorted(Buckets(s, 1, m))
  {
    if m > 0 {
      SecondPassSorts(s, m - 1);
      BucketsSorted(s, 1, m - 1);
      BucketDigits(s, 1, m - 1);
      BucketKeepsOrder(s, 1, m - 1);
      KeyOrderJoin(Buckets(s, 1, m - 1), Bucket(s, 1, m - 1), m - 1);
    }
  }

  lemma KeyOrderJoin(a: seq<SymFreq>, b: seq<SymFreq>, d: nat)
    requires KeysSorted(a) && DigitsSorted(b, 0)
    requires forall i :: 0 <= i < |a| ==> Digit(a[i], 1) < d
    requires forall i :: 0 <= i < |b| ==> Digit(b[i], 1) == d
    ensures KeysSorted(a + b)
  {
    forall i, j | 0 <= i <= j < |b| ensures b[i].key <= b[j].key {
      DigitOrder(b[i], b[j]);
    }
    forall i, j | 0 <= i < |a| && 0 <= j < |b| ensures a[i].key <= b[j].key {
      DigitOrder(a[i], b[j]);
    }
  }

  lemma DigitOrder(x: SymFreq, y: SymFreq)
    requires Digit(x, 1) < Digit(y, 1) || (Digit(x, 1) == Digit(y, 1) && Digit(x, 0) <= Digit(y, 0))
    ensures x.key <= y.key
  {
  }

  /** What the two passes produce. */
  function Sorted2(s: seq<SymFreq>): seq<SymFreq> {
    Buckets(Buckets(s, 0, 256), 1, 256)
  }

  lemma Sorted2IsSorted(s: seq<SymFreq>)
    ensures KeysSorted(Sorted2(s)) && multiset(Sorted2(s)) == multiset(s)
  {
    BucketsPermute(s, 0);
    BucketsPermute(Buckets(s, 0, 256), 1);
    BucketsSorted(s, 0, 256);
    SecondPassSorts(Buckets(s, 0, 256), 256);
  }

  lemma {:induction false} AllInBucketZero(s: seq<SymFreq>, pass: nat)
    requires |Bucket(s, pass, 0)| == |s|
    ensures Bucket(s, pass, 0) == s && forall i :: 0 <= i < |s| ==> Digit(s[i], pass) == 0
  {
    if s != [] {
      var k := |s| - 1;
      AllInBucketZero(s[..k], pass);
      assert s[..k] + [s[k]] == s;
    }
  }

  /** Skipping the second pass is right when all high bytes are zero. */
  lemma OnePassSuffices(s: seq<SymFreq>)
    requires |Bucket(s, 1, 0)| == |s|
    ensures KeysSorted(Buckets(s, 0, 256)) && multiset(Buckets(s, 0, 256)) == multiset(s)
  {
    AllInBucketZero(s, 1);
    var t := Buckets(s, 0, 256);
    BucketsPermute(s, 0);
    BucketsSorted(s, 0, 256);
    forall i | 0 <= i < |t| ensures Digit(t[i], 1) == 0 {
      assert t[i] in multiset(t);
      assert t[i] in s;
    }
    forall i, j | 0 <= i <= j < |t| ensures t[i].key <= t[j].key {
      DigitOrder(t[i], t[j]);
    }
  }

  // ---- The routine

  ghost predicate HistogramAt(hist: seq<nat>, s: seq<SymFreq>, d: nat)
    requires |hist| == 512 && d < 256
  {
    hist[d] == |Bucket(s, 0, d)| && hist[256 + d] == |Bucket(s, 1, d)|
  }

  /** How often each low and each high byte occurs. */
  ghost predicate Histogram(hist: seq<nat>, s: seq<SymFreq>) {
    |hist| == 512 && forall d :: 0 <= d < 256 ==> HistogramAt(hist, s, d)
  }

  method CountDigits(syms: array<SymFreq>, n: nat) returns (hist: array<nat>)
    requires n <= syms.Length
    ensures fresh(hist) && Histogram(hist[..], syms[..n])
  {
    hist := new nat[512](_ => 0);
    assert syms[..0] == [];
    var i := 0;
    while i < n
      invariant 0 <= i <= n && Histogram(hist[..], syms[..i])
    {
      ghost var before := hist[..];
      var lo, hi := Digit(syms[i], 0), Digit(syms[i], 1);
      hist[lo] := hist[lo] + 1;
      hist[256 + hi] := hist[256 + hi] + 1;
      ghost var after := hist[..];
      assert after == before[lo := before[lo] + 1][256 + hi := before[256 + hi] + 1];
      ghost var done := syms[..i + 1];
      forall d | 0 <= d < 256 ensures HistogramAt(after, done, d) {
        BucketSnoc(syms[..n], i, 0, d);
        BucketSnoc(syms[..n], i, 1, d);
        assert syms[..n][..i] == syms[..i] && syms[..n][..i + 1] == syms[..i + 1];
        assert HistogramAt(before, syms[..i], d);
      }
      i := i + 1;
    }
  }

  /** Where bucket `d` begins. */
  ghost function Start(s: seq<SymFreq>, pass: nat, d: nat): nat {
    |Buckets(s, pass, d)|
  }

  method BucketStarts(hist: array<nat>, pass: nat, ghost s: seq<SymFreq>) returns (offsets: array<nat>)
    requires pass <= 1 && Histogram(hist[..], s)
    ensures fresh(offsets) && offsets.Length == 256
    ensures forall d :: 0 <= d < 256 ==> offsets[d] == Start(s, pass, d)
  {
    offsets := new nat[256];
    var curOfs, i := 0, 0;
    while i < 256
      invariant 0 <= i <= 256 && curOfs == Start(s, pass, i)
      invariant forall d :: 0 <= d < i ==> offsets[d] == Start(s, pass, d)
      invariant Histogram(hist[..], s)
    {
      offsets[i] := curOfs;
      assert HistogramAt(hist[..], s, i);
      curOfs := curOfs + hist[pass * 256 + i];
      i := i + 1;
    }
  }

  /** After `i` elements: each bucket holds its share of them, in order. */
  ghost predicate Scattered(out: seq<SymFreq>, offsets: seq<nat>, s: seq<SymFreq>, pass: nat, i: nat)
    requires i <= |s| && |offsets| == 256
  {
    forall d :: 0 <= d < 256 ==>
      && offsets[d] == Start(s, pass, d) + |Bucket(s[..i], pass, d)| <= |out|
      && out[Start(s, pass, d)..offsets[d]] == Bucket(s[..i], pass, d)
  }

  lemma ScatterStep(out: seq<SymFreq>, offsets: seq<nat>, s: seq<SymFreq>, pass: nat, i: nat)
    requires i < |s| <= |out| && |offsets| == 256 && Scattered(out, offsets, s, pass, i)
    ensures var d := Digit(s[i], pass);
            && offsets[d] < Start(s, pass, d) + |Bucket(s, pass, d)| <= |s|
            && Scattered(out[offsets[d] := s[i]], offsets[d := offsets[d] + 1], s, pass, i + 1)
  {
    var d := Digit(s[i], pass);
    RoomForOne(out, offsets, s, pass, i);
    var o := offsets[d];
    var out', offsets' := out[o := s[i]], offsets[d := o + 1];
    forall e | 0 <= e < 256
      ensures offsets'[e] == Start(s, pass, e) + |Bucket(s[..i + 1], pass, e)| <= |out'|
      ensures out'[Start(s, pass, e)..offsets'[e]] == Bucket(s[..i + 1], pass, e)
    {
      BucketSnoc(s, i, pass, e);
      if e == d {
        assert out'[Start(s, pass, e)..o + 1] == out[Start(s, pass, e)..o] + [s[i]];
      } else {
        OtherBucket(out, offsets, s, pass, i, d, e);
      }
    }
  }

  lemma RoomForOne(out: seq<SymFreq>, offsets: seq<nat>, s: seq<SymFreq>, pass: nat, i: nat)
    requires i < |s| <= |out| && |offsets| == 256 && Scattered(out, offsets, s, pass, i)
    ensures var d := Digit(s[i], pass); offsets[d] < Start(s, pass, d) + |Bucket(s, pass, d)| <= |s|
  {
    var d := Digit(s[i], pass);
    BucketSnoc(s, i, pass, d);
    BucketGrows(s, i + 1, pass, d);
    BucketsGrow(s, pass, d, 256);
    BucketsSize(s, pass);
  }

  /** Placing an item in bucket `d` leaves bucket `e` alone. */
  lemma OtherBucket(out: seq<SymFreq>, offsets: seq<nat>, s: seq<SymFreq>, pass: nat, i: nat, d: nat, e: nat)
    requires i < |s| <= |out| && |offsets| == 256 && Scattered(out, offsets, s, pass, i)
    requires d < 256 && e < 256 && d != e && offsets[d] < Start(s, pass, d) + |Bucket(s, pass, d)| <= |s|
    ensures var out' := out[offsets[d] := s[i]];
            Start(s, pass, e) <= offsets[e] <= |out|
                && out'[Start(s, pass, e)..offsets[e]] == out[Start(s, pass, e)..offsets[e]]
  {
    BucketGrows(s, i, pass, e);
    if e < d {
      BucketsGrow(s, pass, e, d);
    } else {
      BucketsGrow(s, pass, d, e);
    }
  }

  lemma {:induction false} ScatteredAll(out: seq<SymFreq>, offsets: seq<nat>, s: seq<SymFreq>, pass: nat, m: nat)
    requires |offsets| == 256 && m <= 256 && Scattered(out, offsets, s, pass, |s|)
    ensures Start(s, pass, m) <= |out| && out[..Start(s, pass, m)] == Buckets(s, pass, m)
  {
    if m > 0 {
      ScatteredAll(out, offsets, s, pass, m - 1);
      assert s[..|s|] == s;
      var a, b := Start(s, pass, m - 1), Start(s, pass, m);
      assert offsets[m - 1] == b;
      assert out[..b] == out[..a] + out[a..b];
    }
  }

  method SortPass(cur: array<SymFreq>, out: array<SymFreq>, n: nat, hist: array<nat>, pass: nat, ghost s0: seq<SymFreq>)
    requires n <= cur.Length && n <= out.Length && cur != out && pass <= 1
    requires Histogram(hist[..], s0) && multiset(s0) == multiset(cur[..n])
    modifies out
    ensures out[..n] == Buckets(cur[..n], pass, 256)
  {
    ghost var s := cur[..n];
    HistogramOfPermutation(hist[..], s0, s);
    var offsets := BucketStarts(hist, pass, s);
    BeforeScatter(out[..], offsets[..], s, pass);
    var i := 0;
    while i < n
      invariant 0 <= i <= n && Scattered(out[..], offsets[..], s, pass, i) && cur[..n] == s
    {
      ScatterOne(cur, out, n, offsets, pass, i, s);
      i := i + 1;
    }
    ScatteredAll(out[..], offsets[..], s, pass, 256);
    BucketsSize(s, pass);
  }

  method ScatterOne(cur: array<SymFreq>, out: array<SymFreq>, n: nat, offsets: array<nat>, pass: nat, i: nat,
                    ghost s: seq<SymFreq>)
    requires i < n <= cur.Length && n <= out.Length && cur != out && cur[..n] == s
    requires offsets.Length == 256 && Scattered(out[..], offsets[..], s, pass, i)
    modifies out, offsets
    ensures Scattered(out[..], offsets[..], s, pass, i + 1)
  {
    ScatterStep(out[..], offsets[..], s, pass, i);
    var d := Digit(cur[i], pass);
    assert cur[i] == s[i];
    var o := offsets[d];
    ghost var before, ofs := out[..], offsets[..];
    out[o] := cur[i];
    offsets[d] := o + 1;
    assert out[..] == before[o := s[i]] && offsets[..] == ofs[d := o + 1];
  }

  lemma BeforeScatter(out: seq<SymFreq>, offsets: seq<nat>, s: seq<SymFreq>, pass: nat)
    requires |offsets| == 256 && |s| <= |out|
    requires forall d :: 0 <= d < 256 ==> offsets[d] == Start(s, pass, d)
    ensures Scattered(out, offsets, s, pass, 0)
  {
    assert s[..0] == [];
    BucketsSize(s, pass);
    forall d | 0 <= d < 256 ensures Start(s, pass, d) <= |s| {
      BucketsGrow(s, pass, d, 256);
    }
  }

  lemma {:induction false} BucketMultiset(s: seq<SymFreq>, pass: nat, d: nat, x: SymFreq)
    ensures multiset(Bucket(s, pass, d))[x] == if Digit(x, pass) == d then multiset(s)[x] else 0
  {
    if s != [] {
      var k := |s| - 1;
      BucketMultiset(s[..k], pass, d, x);
      assert s == s[..k] + [s[k]];
    }
  }

  /** A permutation has the same digit histogram. */
  lemma HistogramOfPermutation(hist: seq<nat>, s: seq<SymFreq>, t: seq<SymFreq>)
    requires Histogram(hist, s) && multiset(s) == multiset(t)
    ensures Histogram(hist, t)
  {
    forall d | 0 <= d < 256 ensures HistogramAt(hist, t, d) {
      assert HistogramAt(hist, s, d);
      SameBucketSize(s, t, 0, d);
      SameBucketSize(s, t, 1, d);
    }
  }

  lemma SameBucketSize(s: seq<SymFreq>, t: seq<SymFreq>, pass: nat, d: nat)
    requires multiset(s) == multiset(t)
    ensures |Bucket(s, pass, d)| == |Bucket(t, pass, d)|
  {
    var a, b := multiset(Bucket(s, pass, d)), multiset(Bucket(t, pass, d));
    forall x: SymFreq ensures a[x] == b[x] {
      BucketMultiset(s, pass, d, x);
      BucketMultiset(t, pass, d, x);
    }
    assert a == b;
    assert |a| == |Bucket(s, pass, d)| && |b| == |Bucket(t, pass, d)|;
  }

  /** `tdefl_radix_sort_syms` */
  method RadixSortSyms(n: nat, syms0: array<SymFreq>, syms1: array<SymFreq>) returns (cur: array<SymFreq>)
    requires n <= syms0.Length && n <= syms1.Length && syms0 != syms1
    modifies syms0, syms1
    ensures cur == syms0 || cur == syms1
    ensures KeysSorted(cur[..n]) && multiset(cur[..n]) == multiset(old(syms0[..n]))
  {
    ghost var s := syms0[..n];
    var hist := CountDigits(syms0, n);
    var totalPasses := if n == hist[256] then 1 else 2;
    assert HistogramAt(hist[..], s, 0);
    SortPass(syms0, syms1, n, hist, 0, s);
    cur := syms1;
    BucketsPermute(s, 0);
    if totalPasses == 2 {
      SortPass(syms1, syms0, n, hist, 1, s);
      cur := syms0;
      Sorted2IsSorted(s);
    } else {
      OnePassSuffices(s);
    }
  }
}
