/**
 Limiting code lengths: code words longer than the limit are cut to it, then the
 overfull code is repaired one unit of Kraft sum at a time.
 */
module Limiter {
  import opened Bits

  const MAX_SUPPORTED := 32

  /** Number of code words of lengths 1 to `i`. */
  ghost function Total(num: seq<int>, i: nat): int
    requires i < |num|
    decreases i, num
  {
    if i == 0 then 0 else Total(num, i - 1) + num[i]
  }

  /** Kraft sum of the code words of lengths 1 to `i`, scaled by 2^max. */
  ghost function Weight(num: seq<int>, max: nat, i: nat): int
    requires i < |num| && i <= max
    decreases i, num
  {
    if i == 0 then 0 else Weight(num, max, i - 1) + num[i] * Pow2(max - i)
  }

  ghost predicate NonNegative(num: seq<int>) {
    forall i :: 0 <= i < |num| ==> num[i] >= 0
  }

  lemma {:induction false} TotalUpdate(num: seq<int>, k: nat, v: int, i: nat)
    requires 1 <= k < |num| && i < |num|
    ensures Total(num[k := v], i) == Total(num, i) + (if k <= i then v - num[k] else 0)
  {
    if i > 0 {
      TotalUpdate(num, k, v, i - 1);
    }
  }

  lemma {:induction false} WeightUpdate(num: seq<int>, max: nat, k: nat, v: int, i: nat)
    requires 1 <= k < |num| && i < |num| && i <= max && k <= max
    ensures Weight(num[k := v], max, i) == Weight(num, max, i) + (if k <= i then (v - num[k]) * Pow2(max - k) else 0)
  {
    if i > 0 {
      WeightUpdate(num, max, k, v, i - 1);
      if k == i {
        assert (v - num[k]) * Pow2(max - k) == v * Pow2(max - k) - num[k] * Pow2(max - k);
      }
    }
  }

  lemma {:induction false} WeightNonNegative(num: seq<int>, max: nat, i: nat)
    requires i < |num| && i <= max && NonNegative(num)
    ensures Weight(num, max, i) >= 0
  {
    if i > 0 {
      WeightNonNegative(num, max, i - 1);
      Bits.MulMono(num[i], 0, Pow2(max - i));
    }
  }

  lemma {:induction false} WeightZero(num: seq<int>, max: nat, i: nat)
    requires i < |num| && i <= max && forall k :: 1 <= k <= i ==> num[k] == 0
    ensures Weight(num, max, i) == 0 && Total(num, i) == 0
  {
    if i > 0 {
      WeightZero(num, max, i - 1);
    }
  }

  lemma {:induction false} SamePrefix(a: seq<int>, b: seq<int>, max: nat, i: nat)
    requires i < |a| && i < |b| && i <= max && forall k :: 1 <= k <= i ==> a[k] == b[k]
    ensures Weight(a, max, i) == Weight(b, max, i) && Total(a, i) == Total(b, i)
  {
    if i > 0 {
      SamePrefix(a, b, max, i - 1);
    }
  }

  lemma {:induction false} WeightRescale(num: seq<int>, m: nat, max: nat, i: nat)
    requires i < |num| && i <= m <= max
    ensures Weight(num, max, i) == Weight(num, m, i) * Pow2(max - m)
  {
    if i > 0 {
      WeightRescale(num, m, max, i - 1);
      var p, q := Pow2(m - i), Pow2(max - m);
      Pow2Add(m - i, max - m);
      assert (m - i) + (max - m) == max - i;
      ScaleTerm(Weight(num, m, i - 1), num[i], p, q);
    }
  }

  lemma ScaleTerm(w: int, n: int, p: int, q: int)
    ensures w * q + n * (p * q) == (w + n * p) * q
  {
    assert n * (p * q) == (n * p) * q;
  }

  /** Code words beyond the limit weigh less than one unit each, but not nothing. */
  lemma {:induction false} BeyondLimit(num: seq<int>, max: nat, top: nat, i: nat)
    requires max < i <= top < |num| && NonNegative(num)
    ensures 2 * (Weight(num, top, i) - Weight(num, top, max)) <= (Total(num, i) - Total(num, max)) * Pow2(top - max)
    ensures Weight(num, top, i) - Weight(num, top, max) >= Total(num, i) - Total(num, max) >= 0
  {
    var p, q := Pow2(top - max), Pow2(top - i);
    Pow2Mono(top - i, top - max - 1);
    assert p == 2 * Pow2(top - max - 1);
    OneTerm(num[i], q, p);
    if i > max + 1 {
      BeyondLimit(num, max, top, i - 1);
    }
    AddTerm(Weight(num, top, i - 1) - Weight(num, top, max), num[i] * q, Total(num, i - 1) - Total(num, max), num[i],
        p);
  }

  lemma AddTerm(w: int, v: int, d: int, n: int, p: int)
    requires 2 * w <= d * p && 2 * v <= n * p
    ensures 2 * (w + v) <= (d + n) * p
  {
    assert (d + n) * p == d * p + n * p;
  }

  lemma OneTerm(n: int, q: int, p: int)
    requires n >= 0 && q >= 1 && 2 * q <= p
    ensures 2 * (n * q) <= n * p && n * q >= n
  {
    Bits.MulMono(n, 2 * q, p);
    Bits.MulMono(n, 1, q);
    assert n * (2 * q) == 2 * (n * q);
  }

  /** The lengths counted by `num` form a complete code of `n` words. */
  ghost predicate CompleteCounts(num: seq<int>, n: nat, max: nat) {
    && max < |num|
    && NonNegative(num)
    && Total(num, max) == n
    && Weight(num, max, max) == Pow2(max)
  }

  /** `num` with everything beyond `max` moved to `max`. */
  ghost predicate CutAt(num: seq<int>, max: nat, cut: seq<int>)
    requires max < |num| == MAX_SUPPORTED + 1
  {
    && |cut| == |num|
    && (forall i :: 0 <= i < |num| && i != max ==> cut[i] == num[i])
    && cut[max] == num[max] + Total(num, MAX_SUPPORTED) - Total(num, max)
  }

  /** Cutting a complete code at `max` leaves it exactly full or overfull. */
  lemma CutIsFull(num: seq<int>, n: nat, max: nat, cut: seq<int>)
    requires |num| == MAX_SUPPORTED + 1 && 1 <= max < MAX_SUPPORTED && CompleteCounts(num, n, MAX_SUPPORTED)
    requires CutAt(num, max, cut)
    ensures NonNegative(cut) && Total(cut, max) == n
    ensures Weight(cut, max, max) >= Pow2(max)
    ensures Total(num, max) < n ==> Weight(cut, max, max - 1) < Pow2(max)
    ensures Total(num, max) == n ==> Weight(cut, max, max) == Pow2(max)
    ensures Total(num, max) <= n
  {
    SamePrefix(num, cut, max, max - 1);
    assert Pow2(max - max) == 1;
    CutWeights(num, n, max);
    WeightNonNegative(num, max, max);
    assert Weight(num, max, max - 1) <= Weight(num, max, max);
  }

  lemma CutWeights(num: seq<int>, n: nat, max: nat)
    requires |num| == MAX_SUPPORTED + 1 && 1 <= max < MAX_SUPPORTED && CompleteCounts(num, n, MAX_SUPPORTED)
    ensures var w, M := Weight(num, max, max), Total(num, MAX_SUPPORTED) - Total(num, max);
            M >= 0 && w + M >= Pow2(max) && (M > 0 ==> w < Pow2(max)) && (M == 0 ==> w == Pow2(max))
  {
    var top := MAX_SUPPORTED;
    BeyondLimit(num, max, top, top);
    WeightRescale(num, max, top, max);
    Pow2Add(max, top - max);
    assert max + (top - max) == top;
    var beyond := Weight(num, top, top) - Weight(num, top, max);
    assert Weight(num, max, max) * Pow2(top - max) + beyond == Pow2(max) * Pow2(top - max);
    FullOrOver(Weight(num, max, max), Total(num, top) - Total(num, max), Pow2(max), Pow2(top - max), beyond);
  }

  lemma MulOrder(p: int, a: int, b: int)
    requires p >= 1
    ensures a <= b <==> p * a <= p * b
  {
  }

  lemma FullOrOver(w: int, M: int, full: int, p: int, beyond: int)
    requires p >= 1 && M >= 0
    requires w * p + beyond == full * p
    requires 2 * beyond <= M * p && beyond >= M
    ensures w + M >= full && (M > 0 ==> w < full) && (M == 0 ==> w == full)
  {
    var gap := full - w;
    assert p * gap == beyond;
    assert p * M == M * p && p * 0 == 0;
    MulOrder(p, gap, M);
    MulOrder(p, gap, 0);
    MulOrder(p, 0, gap);
  }

  /** An overfull code of few enough words has a word shorter than the limit to give. */
  lemma DonorExists(num: seq<int>, n: nat, max: nat)
    requires 1 <= max < |num| && NonNegative(num) && Total(num, max) == n <= Pow2(max)
    requires Weight(num, max, max) > Pow2(max)
    ensures exists i :: 1 <= i < max && num[i] != 0
  {
    assert Pow2(max - max) == 1;
    if forall i :: 1 <= i < max ==> num[i] == 0 {
      WeightZero(num, max, max - 1);
    }
  }

  /** What one repair does to the counts: two words leave, two take their place. */
  lemma Repair(num: seq<int>, max: nat, i: nat)
    requires 1 <= i < max < |num|
    ensures var r := num[max := num[max] - 1][i := num[i] - 1];
            var s := r[i + 1 := r[i + 1] + 2];
            && Total(s, max) == Total(num, max)
            && Weight(s, max, max) == Weight(num, max, max) - 1
            && Weight(s, max, max - 1) <= Weight(num, max, max - 1)
  {
    var a := num[max := num[max] - 1];
    var r := a[i := num[i] - 1];
    TotalUpdate(num, max, num[max] - 1, max);
    TotalUpdate(a, i, num[i] - 1, max);
    TotalUpdate(r, i + 1, r[i + 1] + 2, max);
    WeightUpdate(num, max, max, num[max] - 1, max);
    WeightUpdate(a, max, i, num[i] - 1, max);
    WeightUpdate(r, max, i + 1, r[i + 1] + 2, max);
    WeightUpdate(num, max, max, num[max] - 1, max - 1);
    WeightUpdate(a, max, i, num[i] - 1, max - 1);
    WeightUpdate(r, max, i + 1, r[i + 1] + 2, max - 1);
    assert Pow2(max - i) == 2 * Pow2(max - (i + 1));
    assert Pow2(max - max) == 1;
  }

  // ---- Which words are lengthened

  /** How many words could be made of those of lengths `i + 1` to `max - 1` by splitting them down to the limit. */
  ghost function Give(num: seq<int>, max: nat, i: nat): int
    requires 1 <= i < max < |num|
  {
    Weight(num, max, max - 1) - Weight(num, max, i) - (Total(num, max - 1) - Total(num, i))
  }

  /** Words shorter than `i` are untouched, `k` of length `i` have been split, and little is left of the last split. */
  ghost predicate SplitFrom(num0: seq<int>, num: seq<int>, n: nat, max: nat, i: nat, k: nat)
    requires 1 <= max < |num0| == |num|
  {
    && 1 <= i < max
    && (forall j :: 1 <= j < i ==> num[j] == num0[j])
    && num[i] == num0[i] - k
    && Give(num, max, i) <= n
  }

  /** `s` is `num` after a word of length `d` has been split to take in one from the limit. */
  ghost predicate RepairOf(num: seq<int>, s: seq<int>, max: nat, d: nat)
    requires 1 <= d < max < |num|
  {
    var r := num[max := num[max] - 1][d := num[d] - 1];
    (s == r[d + 1 := r[d + 1] + 2]) == true
  }

  /** A repair below the base uses up what is left of the last split. */
  lemma SplitDeeper(num0: seq<int>, num: seq<int>, s: seq<int>, n: nat, max: nat, i: nat, k: nat, d: nat)
    requires 1 <= max < |num0| == |num| && SplitFrom(num0, num, n, max, i, k) && i < d < max
    requires RepairOf(num, s, max, d)
    ensures SplitFrom(num0, s, n, max, i, k)
  {
    RepairBelow(num, s, max, d, max - 1);
    RepairBelow(num, s, max, d, i);
  }

  /** The sums up to a level below the limit after a repair at level `d`. */
  lemma RepairBelow(num: seq<int>, s: seq<int>, max: nat, d: nat, l: nat)
    requires 1 <= d < max < |num| && l < max
    requires RepairOf(num, s, max, d)
    ensures Total(s, l) == Total(num, l) - (if d <= l then 1 else 0) + (if d + 1 <= l then 2 else 0)
    ensures Weight(s, max, l) == Weight(num, max, l) - (if d == l then Pow2(max - d) else 0)
  {
    var a := num[max := num[max] - 1];
    var r := a[d := num[d] - 1];
    TotalUpdate(num, max, num[max] - 1, l);
    TotalUpdate(a, d, num[d] - 1, l);
    TotalUpdate(r, d + 1, r[d + 1] + 2, l);
    WeightUpdate(num, max, max, num[max] - 1, l);
    WeightUpdate(a, max, d, num[d] - 1, l);
    WeightUpdate(r, max, d + 1, r[d + 1] + 2, l);
    assert Pow2(max - d) == 2 * Pow2(max - (d + 1));
  }

  /** Levels without words change no sums. */
  lemma {:induction false} EmptyLevels(num: seq<int>, max: nat, i: nat, l: nat)
    requires i <= l <= max && l < |num| && forall j :: i < j <= l ==> num[j] == 0
    ensures Weight(num, max, l) == Weight(num, max, i) && Total(num, l) == Total(num, i)
    decreases l
  {
    if i < l {
      EmptyLevels(num, max, i, l - 1);
    }
  }

  /** A repair at or above the base: everything between is used up, and few words come of the new split. */
  lemma SplitNext(num0: seq<int>, num: seq<int>, s: seq<int>, n: nat, max: nat, i: nat, k: nat, d: nat, total: int)
    requires 1 <= max < |num0| == |num| && SplitFrom(num0, num, n, max, i, k) && 1 <= d <= i
    requires Repairing(num, n, max, total) && total > Pow2(max)
    requires forall j :: d < j < max ==> num[j] == 0
    requires RepairOf(num, s, max, d)
    ensures SplitFrom(num0, s, n, max, d, num0[d] - s[d])
  {
    EmptyLevels(num, max, d, max - 1);
    NewSplit(num, s, max, d);
    FewLeft(num, n, max, d, total);
    LowerLevels(num, s, max, d);
    NextSplit(num0, num, s, n, max, i, k, d);
  }

  lemma NextSplit(num0: seq<int>, num: seq<int>, s: seq<int>, n: nat, max: nat, i: nat, k: nat, d: nat)
    requires 1 <= d <= i < max < |num0| == |num| == |s| && s[d] == num[d] - 1 && Give(s, max, d) <= n
    requires (forall j :: 1 <= j < i ==> num[j] == num0[j]) && num[i] == num0[i] - k
    requires forall j :: 1 <= j < d ==> s[j] == num[j]
    ensures num0[d] >= s[d] && SplitFrom(num0, s, n, max, d, num0[d] - s[d])
  {
  }

  lemma LowerLevels(num: seq<int>, s: seq<int>, max: nat, d: nat)
    requires 1 <= d < max < |num| && RepairOf(num, s, max, d)
    ensures |s| == |num| && s[d] == num[d] - 1 && forall j :: 1 <= j < d ==> s[j] == num[j]
  {
  }

  /** Splitting a word of the longest length in use gives at most so many words. */
  lemma NewSplit(num: seq<int>, s: seq<int>, max: nat, d: nat)
    requires 1 <= d < max < |num| == |s|
    requires Weight(num, max, max - 1) == Weight(num, max, d) && Total(num, max - 1) == Total(num, d)
    requires RepairOf(num, s, max, d)
    ensures Give(s, max, d) <= Pow2(max - d)
  {
    RepairBelow(num, s, max, d, max - 1);
    RepairBelow(num, s, max, d, d);
  }

  /** When only `d` levels are in use below the limit, one split gives no more words than there are. */
  lemma FewLeft(num: seq<int>, n: nat, max: nat, d: nat, total: int)
    requires 1 <= d < max < |num| && Repairing(num, n, max, total) && total > Pow2(max)
    requires forall j :: d < j < max ==> num[j] == 0
    ensures Pow2(max - d) <= n
  {
    EmptyLevels(num, max, d, max - 1);
    WeightRescale(num, d, max, d);
    WeightNonNegative(num, d, d);
    Pow2Add(d, max - d);
    assert d + (max - d) == max;
    Multiple(Weight(num, d, d), Pow2(d), Pow2(max - d));
    assert Pow2(max - max) == 1;
    TotalNonNegative(num, max - 1);
  }

  lemma Multiple(a: int, b: nat, p: nat)
    requires p >= 1 && a * p < b * p
    ensures a * p + p <= b * p
  {
    MulOrder(p, b, a);
    MulOrder(p, a + 1, b);
    assert p * (a + 1) == a * p + p;
  }

  lemma {:induction false} TotalNonNegative(num: seq<int>, i: nat)
    requires i < |num| && NonNegative(num)
    ensures Total(num, i) >= 0
  {
    if i > 0 {
      TotalNonNegative(num, i - 1);
    }
  }

  /** Moves the counts beyond the limit to the limit. */
  method CutCodes(num: array<int>, max: nat)
    requires num.Length == MAX_SUPPORTED + 1 && 1 <= max < MAX_SUPPORTED
    modifies num
    ensures CutAt(old(num[..]), max, num[..])
  {
    var i := max + 1;
    while i <= MAX_SUPPORTED
      invariant max + 1 <= i <= MAX_SUPPORTED + 1
      invariant forall k :: 0 <= k < num.Length && k != max ==> num[k] == old(num[k])
      invariant num[max] == old(num[max]) + Total(old(num[..]), i - 1) - Total(old(num[..]), max)
    {
      num[max] := num[max] + num[i];
      i := i + 1;
    }
  }

  method ScaledSum(num: array<int>, max: nat) returns (total: int)
    requires max < num.Length
    ensures total == Weight(num[..], max, max)
  {
    total := 0;
    var i := max;
    while i > 0
      invariant 0 <= i <= max
      invariant total + Weight(num[..], max, i) == Weight(num[..], max, max)
    {
      total := total + num[i] * Pow2(max - i);
      i := i - 1;
    }
  }

  /** Between repairs: the number of words is right and the code is not underfull. */
  ghost predicate Repairing(num: seq<int>, n: nat, max: nat, total: int)
    requires 1 <= max < |num|
  {
    && NonNegative(num) && Total(num, max) == n
    && total == Weight(num, max, max) >= Pow2(max)
    && Weight(num, max, max - 1) < Pow2(max)
  }

  /** One repair: a word at the limit and a shorter one make room for two. */
  method RepairOnce(num: array<int>, ghost n: nat, max: nat, ghost total: int, ghost num0: seq<int>, ghost base: nat,
                    ghost k: nat)
    returns (ghost base': nat, ghost k': nat)
    requires 1 <= max < num.Length == |num0| && n <= Pow2(max)
    requires Repairing(num[..], n, max, total) && total > Pow2(max) && SplitFrom(num0, num[..], n, max, base, k)
    modifies num
    ensures Repairing(num[..], n, max, total - 1) && SplitFrom(num0, num[..], n, max, base', k')
  {
    ghost var before := num[..];
    DonorExists(before, n, max);
    assert Pow2(max - max) == 1;
    num[max] := num[max] - 1;
    var i := max - 1;
    while i > 0 && num[i] == 0
      invariant 0 <= i < max
      invariant num[..] == before[max := before[max] - 1]
      invariant forall k :: i < k < max ==> before[k] == 0
    {
      i := i - 1;
    }
    num[i] := num[i] - 1;
    num[i + 1] := num[i + 1] + 2;
    ghost var r := before[max := before[max] - 1][i := before[i] - 1];
    assert num[..] == r[i + 1 := r[i + 1] + 2];
    assert RepairOf(before, num[..], max, i);
    base', k' := Repaired(num0, before, num[..], n, max, total, base, k, i);
  }

  lemma Repaired(num0: seq<int>, num: seq<int>, s: seq<int>, n: nat, max: nat, total: int, i: nat, k: nat, d: nat)
    returns (i': nat, k': nat)
    requires 1 <= max < |num0| == |num| && n <= Pow2(max)
    requires Repairing(num, n, max, total) && total > Pow2(max) && SplitFrom(num0, num, n, max, i, k)
    requires 1 <= d < max && num[d] > 0 && num[max] > 0 && forall j :: d < j < max ==> num[j] == 0
    requires RepairOf(num, s, max, d)
    ensures Repairing(s, n, max, total - 1) && SplitFrom(num0, s, n, max, i', k')
  {
    Repair(num, max, d);
    if d <= i {
      SplitNext(num0, num, s, n, max, i, k, d, total);
      i', k' := d, num0[d] - s[d];
    } else {
      SplitDeeper(num0, num, s, n, max, i, k, d);
      i', k' := i, k;
    }
  }

  /** How the limited counts come from the original ones: words of length `i` and more become at most
      `max` long, and those among them that get longer are few. */
  ghost predicate FewLengthened(num0: seq<int>, num: seq<int>, n: nat, max: nat, i: nat, k: nat)
    requires 1 <= max < |num0| == |num|
  {
    && 1 <= i < max && (forall j :: 1 <= j < i ==> num[j] == num0[j]) && num[i] == num0[i] - k
    && Give(num0, max, i) + k * (Pow2(max - i) - 1) <= 2 * n
  }

  lemma SplitWeights(num0: seq<int>, num: seq<int>, max: nat, i: nat, k: nat)
    requires 1 <= i < max < |num0| == |num|
    requires (forall j :: 1 <= j < i ==> num[j] == num0[j]) && num[i] == num0[i] - k
    ensures Weight(num, max, i) == Weight(num0, max, i) - k * Pow2(max - i) && Total(num, i) == Total(num0, i) - k
  {
    SamePrefix(num0, num, max, i - 1);
    assert num[i] * Pow2(max - i) == num0[i] * Pow2(max - i) - k * Pow2(max - i);
  }

  /** All that was split became the room that was missing, but for what is left. */
  lemma SplitIsFew(num0: seq<int>, cut: seq<int>, num: seq<int>, n: nat, max: nat, i: nat, k: nat)
    requires |num0| == |num| == MAX_SUPPORTED + 1 && 1 <= max < MAX_SUPPORTED && CompleteCounts(num0, n, MAX_SUPPORTED)
    requires CutAt(num0, max, cut) && SplitFrom(cut, num, n, max, i, k) && CompleteCounts(num, n, max)
    ensures FewLengthened(num0, num, n, max, i, k)
  {
    SplitWeights(cut, num, max, i, k);
    SamePrefix(num0, cut, max, i);
    SamePrefix(num0, cut, max, max - 1);
    CutWeights(num0, n, max);
    TotalNonNegative(num0, max);
    assert Pow2(max - max) == 1;
    assert k * (Pow2(max - i) - 1) == k * Pow2(max - i) - k;
  }

  /** `tdefl_huffman_enforce_max_code_size` */
  method EnforceMaxCodeSize(num: array<int>, codeListLen: nat, max: nat) returns (ghost base: nat, ghost k: nat)
    requires num.Length == MAX_SUPPORTED + 1 && 1 <= max < MAX_SUPPORTED
    requires codeListLen <= Pow2(max)
    requires codeListLen > 1 ==> CompleteCounts(num[..], codeListLen, MAX_SUPPORTED)
    modifies num
    ensures codeListLen <= 1 ==> num[..] == old(num[..])
    ensures codeListLen > 1 ==> CompleteCounts(num[..], codeListLen, max)
    ensures codeListLen > 1 && Total(old(num[..]), max) == codeListLen ==> num[..] == old(num[..])
    ensures codeListLen > 1 && num[max] == 0 ==> num[..] == old(num[..])
    ensures codeListLen > 1 && max >= 2 ==> FewLengthened(old(num[..]), num[..], codeListLen, max, base, k)
  {
    base, k := max - 1, 0;
    if codeListLen <= 1 {
      return;
    }
    CutCodes(num, max);
    ghost var cut := num[..];
    CutIsFull(old(num[..]), codeListLen, max, num[..]);
    var total := ScaledSum(num, max);
    ghost var fits := Total(old(num[..]), max) == codeListLen;
    assert fits ==> num[..] == old(num[..]);
    while total != Pow2(max)
      invariant fits ==> total == Weight(num[..], max, max) == Pow2(max) && num[..] == old(num[..])
      invariant !fits ==> Repairing(num[..], codeListLen, max, total)
      invariant max >= 2 ==> SplitFrom(cut, num[..], codeListLen, max, base, k)
      decreases total
    {
      base, k := RepairOnce(num, codeListLen, max, total, cut, base, k);
      total := total - 1;
    }
    assert Pow2(max - max) == 1;
    if max >= 2 {
      SplitIsFew(old(num[..]), cut, num[..], codeListLen, max, base, k);
    }
  }
}
