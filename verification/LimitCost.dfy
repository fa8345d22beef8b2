/**
 What limiting code lengths costs. Only few words get longer, and those are words
 of rare symbols: for each of them the total is a Fibonacci multiple of its weight.
 */
module LimitCost {
  import opened Bits
  import opened OptimalCode
  import opened MergeTree
  import opened MinRedundancy
  import opened Canonical
  import opened Limiter

  /** The limit of the compressor's codes. */
  const LIMIT := 15

  // ---- Falling lists by their counts

  /** `num` says how often each length up to `m` occurs. */
  ghost predicate Counts(s: seq<nat>, num: seq<int>, m: nat) {
    m < |num| && forall l :: 1 <= l <= m ==> num[l] == Count(s, l)
  }

  lemma {:induction false} CountRun(s: seq<nat>, a: nat, b: nat, l: nat, same: bool)
    requires a <= b <= |s| && forall p :: a <= p < b ==> (s[p] == l <==> same)
    ensures CountUpTo(s, b, l) == CountUpTo(s, a, l) + (if same then b - a else 0)
    decreases b
  {
    if a < b {
      CountRun(s, a, b - 1, l, same);
    }
  }

  lemma {:induction false} KraftRun(s: seq<nat>, l: nat, L: nat)
    requires l <= L && forall p :: 0 <= p < |s| ==> s[p] == l
    ensures AllAtMost(s, L) && Kraft(s, L) == |s| * Pow2(L - l)
  {
    if s != [] {
      KraftRun(s[1..], l, L);
      assert |s| * Pow2(L - l) == (|s| - 1) * Pow2(L - l) + Pow2(L - l);
    }
  }

  /** From position `c` on, and only there, lengths are at most `l`. */
  ghost predicate Cut(s: seq<nat>, l: nat, c: nat) {
    c <= |s| && (forall p :: 0 <= p < c ==> s[p] > l) && (forall p :: c <= p < |s| ==> s[p] <= l)
  }

  /** Where the lengths up to `l` start, and what they weigh. */
  lemma {:induction false} CutOf(s: seq<nat>, num: seq<int>, m: nat, l: nat, L: nat) returns (c: nat)
    requires Falling(s) && (forall p :: 0 <= p < |s| ==> s[p] >= 1) && Counts(s, num, m) && l <= m && l <= L
    ensures Cut(s, l, c) && |s| - c == Total(num, l) && AllAtMost(s[c..], L) && Kraft(s[c..], L) == Weight(num, L, l)
  {
    if l == 0 {
      c := |s|;
    } else {
      var d := CutOf(s, num, m, l - 1, L);
      c := RunStart(s, d, l);
      CountBetween(s, c, d, l);
      assert num[l] == d - c;
      assert s[c..] == s[c..d] + s[d..];
      KraftRun(s[c..d], l, L);
      KraftConcat(s[c..d], s[d..], L);
    }
  }

  lemma CountBetween(s: seq<nat>, c: nat, d: nat, l: nat)
    requires c <= d <= |s| && (forall p :: 0 <= p < c ==> s[p] > l)
    requires (forall p :: c <= p < d ==> s[p] == l) && (forall p :: d <= p < |s| ==> s[p] < l)
    ensures Count(s, l) == d - c
  {
    CountRun(s, 0, c, l, false);
    CountRun(s, c, d, l, true);
    CountRun(s, d, |s|, l, false);
  }

  lemma RunStart(s: seq<nat>, d: nat, l: nat) returns (c: nat)
    requires Falling(s) && d <= |s| && forall p :: 0 <= p < d ==> s[p] >= l
    ensures c <= d && (forall p :: c <= p < d ==> s[p] == l) && (forall p :: 0 <= p < c ==> s[p] > l)
  {
    c := d;
    while c > 0 && s[c - 1] == l
      invariant c <= d && forall p :: c <= p < d ==> s[p] == l
    {
      c := c - 1;
    }
  }

  // ---- Which positions can get longer

  /** Outside positions `a` to `b` nothing gets longer; within, lengths are at most the limit. */
  ghost predicate LongerOnlyWithin(ls: seq<nat>, r: seq<nat>, a: nat, b: nat) {
    && |r| == |ls| && a <= b <= |ls|
    && (forall p :: 0 <= p < |r| ==> r[p] <= LIMIT)
    && (forall p :: 0 <= p < |r| && !(a <= p < b) ==> r[p] <= ls[p])
    && (forall p :: a <= p < b ==> 1 <= ls[p] < LIMIT)
  }

  lemma UnchangedBeyond(ls: seq<nat>, r: seq<nat>, num0: seq<int>, num: seq<int>, i: nat, k: nat, p: nat, b: nat)
    requires Falling(ls) && Falling(r) && |r| == |ls| && b <= p < |ls|
    requires forall q :: 0 <= q < |r| ==> ls[q] >= 1 && r[q] >= 1
    requires |num0| == |num| && Counts(ls, num0, LIMIT) && Counts(r, num, LIMIT) && 1 <= i < LIMIT
    requires (forall j :: 1 <= j < i ==> num[j] == num0[j]) && num[i] == num0[i] - k
    requires |ls| - b == Total(num0, i) - k
    ensures r[p] <= ls[p]
  {
    SplitWeights(num0, num, LIMIT, i, k);
    if ls[p] >= i {
      var c := CutOf(r, num, LIMIT, i, LIMIT);
    } else {
      var l := ls[p];
      var c := CutOf(ls, num0, LIMIT, l, LIMIT);
      SamePrefix(num0, num, LIMIT, l);
      var d := CutOf(r, num, LIMIT, l, LIMIT);
    }
  }

  /** The range of positions that get longer: those of length `i` on that are split, down to the limit. */
  lemma RangeOf(ls: seq<nat>, num0: seq<int>, i: nat, k: nat) returns (a: nat, b: nat)
    requires Falling(ls) && (forall p :: 0 <= p < |ls| ==> ls[p] >= 1) && Counts(ls, num0, LIMIT)
    requires 1 <= i < LIMIT && k <= num0[i]
    ensures a <= b <= |ls| && |ls| - b == Total(num0, i) - k && |ls| - a == Total(num0, LIMIT - 1)
    ensures (forall p :: 0 <= p < a ==> ls[p] >= LIMIT) && (forall p :: a <= p < |ls| ==> ls[p] < LIMIT)
    ensures AllAtMost(ls[a..b], LIMIT)
    ensures Kraft(ls[a..b], LIMIT) == Weight(num0, LIMIT, LIMIT - 1) - Weight(num0, LIMIT, i) + k * Pow2(LIMIT - i)
  {
    a := CutOf(ls, num0, LIMIT, LIMIT - 1, LIMIT);
    var c := CutOf(ls, num0, LIMIT, i, LIMIT);
    var d := CutOf(ls, num0, LIMIT, i - 1, LIMIT);
    assert Total(num0, i) == Total(num0, i - 1) + num0[i];
    b := c + k;
    CutsInOrder(ls, a, c, i);
    RunKraft(ls, c, b, i);
    SliceKraft(ls, a, b);
  }

  lemma SliceKraft(ls: seq<nat>, a: nat, b: nat)
    requires a <= b <= |ls| && AllAtMost(ls[a..], LIMIT)
    ensures AllAtMost(ls[a..b], LIMIT) && AllAtMost(ls[b..], LIMIT)
    ensures Kraft(ls[a..], LIMIT) == Kraft(ls[a..b], LIMIT) + Kraft(ls[b..], LIMIT)
  {
    assert ls[a..] == ls[a..b] + ls[b..];
    forall p | 0 <= p < |ls[b..]| ensures ls[b..][p] <= LIMIT {
      assert ls[b..][p] == ls[a..][b - a + p];
    }
    forall p | 0 <= p < b - a ensures ls[a..b][p] <= LIMIT {
      assert ls[a..b][p] == ls[a..][p];
    }
    KraftConcat(ls[a..b], ls[b..], LIMIT);
  }

  lemma CutsInOrder(ls: seq<nat>, a: nat, c: nat, i: nat)
    requires Cut(ls, LIMIT - 1, a) && Cut(ls, i, c) && i < LIMIT
    ensures a <= c
  {
    assert c < |ls| ==> ls[c] <= i;
  }

  lemma RunKraft(ls: seq<nat>, c: nat, b: nat, i: nat)
    requires c <= b <= |ls| && i <= LIMIT && AllAtMost(ls[c..], LIMIT) && forall p :: c <= p < b ==> ls[p] == i
    ensures AllAtMost(ls[b..], LIMIT) && Kraft(ls[c..], LIMIT) == (b - c) * Pow2(LIMIT - i) + Kraft(ls[b..], LIMIT)
  {
    SliceKraft(ls, c, b);
    KraftRun(ls[c..b], i, LIMIT);
  }

  /** The positions that get longer, and how little they weigh. */
  lemma LongerRange(ls: seq<nat>, r: seq<nat>, num0: seq<int>, num: seq<int>, i: nat, k: nat) returns (a: nat, b: nat)
    requires Falling(ls) && Falling(r) && |r| == |ls|
    requires forall p :: 0 <= p < |r| ==> ls[p] >= 1 && 1 <= r[p] <= LIMIT
    requires Counts(ls, num0, LIMIT) && Counts(r, num, LIMIT)
    requires |num0| == |num| && FewLengthened(num0, num, |ls|, LIMIT, i, k)
    ensures LongerOnlyWithin(ls, r, a, b) && AllAtMost(ls[a..b], LIMIT)
    ensures Kraft(ls[a..b], LIMIT) <= 2 * |ls| + (b - a)
  {
    assert num[i] == Count(r, i) >= 0;
    a, b := RangeOf(ls, num0, i, k);
    TakeOff(k, Pow2(LIMIT - i));
    forall p | b <= p < |ls| ensures r[p] <= ls[p] {
      UnchangedBeyond(ls, r, num0, num, i, k, p, b);
    }
  }

  lemma TakeOff(k: int, q: int)
    ensures k * (q - 1) == k * q - k
  {
  }

  // ---- What the longer words cost

  lemma Fibs()
    ensures Fib(2) == 1 && Fib(3) == 2 && Fib(4) == 3 && Fib(5) == 5 && Fib(6) == 8 && Fib(7) == 13 && Fib(8) == 21
    ensures Fib(9) == 34 && Fib(10) == 55 && Fib(11) == 89 && Fib(12) == 144 && Fib(13) == 233 && Fib(14) == 377
        && Fib(15) == 610
  {
    assert Fib(8) == 21 && Fib(9) == 34;
    assert Fib(12) == 144 && Fib(13) == 233;
  }

  /** A word that is `d` bits below the limit may have got `d` bits longer; its symbol is rare enough. */
  lemma RareEnough(d: nat)
    requires 1 <= d < LIMIT
    ensures 538 * d <= Fib(16 - d) * (Pow2(d) - 1)
  {
    Fibs();
    PowersTo14();
  }

  lemma PowersTo14()
    ensures Pow2(0) == 1 && Pow2(1) == 2 && Pow2(2) == 4 && Pow2(3) == 8 && Pow2(4) == 16 && Pow2(5) == 32
        && Pow2(6) == 64
    ensures Pow2(7) == 128 && Pow2(8) == 256 && Pow2(9) == 512 && Pow2(10) == 1024 && Pow2(11) == 2048
    ensures Pow2(12) == 4096 && Pow2(13) == 8192 && Pow2(14) == 16384
  {
  }

  lemma OneWordCosts(w: nat, d: nat, total: nat)
    requires 1 <= d < LIMIT && w * Fib(16 - d) <= total
    ensures 538 * (w * d) <= total * (Pow2(d) - 1)
  {
    RareEnough(d);
    Shares(w, d, total, Fib(16 - d), Pow2(d) - 1);
  }

  lemma Shares(w: nat, d: nat, total: nat, f: nat, q: nat)
    requires 538 * d <= f * q && w * f <= total
    ensures 538 * (w * d) <= total * q
  {
    MulMonoLeft(538 * d, f * q, w);
    MulMonoLeft(w * f, total, q);
    Commute(w, d, f, q);
  }

  lemma Commute(w: nat, d: nat, f: nat, q: nat)
    ensures (538 * d) * w == 538 * (w * d) && (f * q) * w == (w * f) * q
  {
  }

  /** How far below the limit the lengths are. */
  ghost function Below(ls: seq<nat>): (s: seq<nat>)
    requires AllAtMost(ls, LIMIT)
    ensures |s| == |ls| && forall p :: 0 <= p < |ls| ==> s[p] == LIMIT - ls[p]
  {
    seq(|ls|, p requires 0 <= p < |ls| => LIMIT - ls[p])
  }

  lemma {:induction false} LongerWordsCost(f: seq<nat>, ls: seq<nat>, total: nat)
    requires |f| == |ls| && AllAtMost(ls, LIMIT)
    requires forall p :: 0 <= p < |f| ==> 1 <= ls[p] < LIMIT && f[p] * Fib(ls[p] + 1) <= total
    ensures 538 * Cost(f, Below(ls)) <= total * (Kraft(ls, LIMIT) - |ls|)
  {
    if f != [] {
      assert Below(ls)[1..] == Below(ls[1..]);
      LongerWordsCost(f[1..], ls[1..], total);
      var d := LIMIT - ls[0];
      assert 16 - d == ls[0] + 1;
      OneWordCosts(f[0], d, total);
      var x := Kraft(ls[1..], LIMIT) - (|ls| - 1);
      assert total * (x + (Pow2(d) - 1)) == total * x + total * (Pow2(d) - 1);
    }
  }

  // ---- Costs side by side

  /** Within the range a word is at most the limit, which is its old length and the rest. */
  lemma {:induction false} CostUpToLimit(f: seq<nat>, ls: seq<nat>, r: seq<nat>)
    requires |f| == |ls| == |r| && AllAtMost(ls, LIMIT) && AllAtMost(r, LIMIT)
    ensures Cost(f, r) <= Cost(f, ls) + Cost(f, Below(ls))
  {
    if f != [] {
      assert Below(ls)[1..] == Below(ls[1..]);
      CostUpToLimit(f[1..], ls[1..], r[1..]);
      MulMono(f[0], r[0], LIMIT);
      assert f[0] * LIMIT == f[0] * ls[0] + f[0] * (LIMIT - ls[0]);
    }
  }

  lemma CostInRange(f: seq<nat>, ls: seq<nat>, r: seq<nat>, a: nat, b: nat)
    requires |f| == |ls| && LongerOnlyWithin(ls, r, a, b)
    ensures AllAtMost(ls[a..b], LIMIT) && Cost(f, r) <= Cost(f, ls) + Cost(f[a..b], Below(ls[a..b]))
  {
    CostMono(f[..a], r[..a], ls[..a]);
    CostMono(f[b..], r[b..], ls[b..]);
    CostUpToLimit(f[a..b], ls[a..b], r[a..b]);
    ThreeCosts(f, ls, a, b);
    ThreeCosts(f, r, a, b);
  }

  lemma ThreeCosts(f: seq<nat>, ls: seq<nat>, a: nat, b: nat)
    requires |f| == |ls| && a <= b <= |f|
    ensures Cost(f, ls) == Cost(f[..a], ls[..a]) + Cost(f[a..b], ls[a..b]) + Cost(f[b..], ls[b..])
  {
    CostConcat(f[..a], ls[..a], f[a..b], ls[a..b]);
    CostConcat(f[..b], ls[..b], f[b..], ls[b..]);
    assert f[..a] + f[a..b] == f[..b] && ls[..a] + ls[a..b] == ls[..b];
    assert f[..b] + f[b..] == f && ls[..b] + ls[b..] == ls;
  }

  /** Limiting a minimum-redundancy code makes it longer by at most a small multiple of the message length. */
  lemma LimitingIsCheap(f: seq<nat>, ls: seq<nat>, r: seq<nat>, num0: seq<int>, num: seq<int>, i: nat, k: nat)
    requires |f| == |ls| == |r| && Falling(ls) && Falling(r) && LongIsRare(f, ls)
    requires forall p :: 0 <= p < |r| ==> ls[p] >= 1 && 1 <= r[p] <= LIMIT
    requires Counts(ls, num0, LIMIT) && Counts(r, num, LIMIT)
    requires |num0| == |num| && FewLengthened(num0, num, |ls|, LIMIT, i, k)
    ensures 538 * Cost(f, r) <= 538 * Cost(f, ls) + 2 * |f| * Sum(f)
  {
    var a, b := LongerRange(ls, r, num0, num, i, k);
    CostInRange(f, ls, r, a, b);
    var x, k' := RangeCosts(f, ls, a, b);
    Chain(Cost(f, r), Cost(f, ls), x, Sum(f), k', |f|);
  }

  lemma Chain(r: nat, ls: nat, x: nat, total: nat, k: int, n: nat)
    requires r <= ls + x && 538 * x <= total * k && k <= 2 * n
    ensures 538 * r <= 538 * ls + 2 * n * total
  {
    Scaled(total, k, 2 * n);
  }

  lemma RangeCosts(f: seq<nat>, ls: seq<nat>, a: nat, b: nat) returns (x: nat, k: int)
    requires LongIsRare(f, ls) && a <= b <= |ls| && forall p :: a <= p < b ==> 1 <= ls[p] < LIMIT
    ensures AllAtMost(ls[a..b], LIMIT)
    ensures x == Cost(f[a..b], Below(ls[a..b])) && k == Kraft(ls[a..b], LIMIT) - (b - a)
    ensures 538 * x <= Sum(f) * k
  {
    var fs, ss := f[a..b], ls[a..b];
    forall p | 0 <= p < |fs| ensures 1 <= ss[p] < LIMIT && fs[p] * Fib(ss[p] + 1) <= Sum(f) {
      assert fs[p] == f[a + p] && ss[p] == ls[a + p];
    }
    LongerWordsCost(fs, ss, Sum(f));
    x, k := Cost(fs, Below(ss)), Kraft(ss, LIMIT) - |ss|;
  }

  lemma Scaled(total: nat, x: int, y: int)
    requires x <= y
    ensures total * x <= y * total
  {
    assert total * (y - x) >= 0;
  }
}
