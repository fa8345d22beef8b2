/**
 What "minimum redundancy" means. A prefix code with lengths `ls` obeys Kraft's
 inequality, and no lengths obeying it are cheaper than repeatedly merging the
 two lightest weights.
 */
module OptimalCode {
  import opened Bits

  ghost predicate AllAtMost(ls: seq<nat>, L: nat) {
    forall i :: 0 <= i < |ls| ==> ls[i] <= L
  }

  /** The Kraft sum of the lengths, scaled by 2^L. */
  ghost function Kraft(ls: seq<nat>, L: nat): (k: nat)
    requires AllAtMost(ls, L)
  {
    if ls == [] then 0 else Pow2(L - ls[0]) + Kraft(ls[1..], L)
  }

  /** Total length of a message in which symbol `i` occurs `ws[i]` times. */
  ghost function Cost(ws: seq<nat>, ls: seq<nat>): (c: nat)
    requires |ws| == |ls|
  {
    if ws == [] then 0 else ws[0] * ls[0] + Cost(ws[1..], ls[1..])
  }

  function Remove<T>(s: seq<T>, i: nat): (r: seq<T>)
    requires i < |s|
    ensures |r| == |s| - 1
  {
    s[..i] + s[i + 1..]
  }

  // ---- Kraft's inequality for prefix codes

  ghost predicate PrefixFree(codes: seq<seq<bool>>) {
    forall i, j :: 0 <= i < |codes| && 0 <= j < |codes| && i != j ==> !(codes[i] <= codes[j])
  }

  ghost function Lengths(codes: seq<seq<bool>>): (ls: seq<nat>)
    ensures |ls| == |codes| && forall i :: 0 <= i < |codes| ==> ls[i] == |codes[i]|
  {
    seq(|codes|, i requires 0 <= i < |codes| => |codes[i]|)
  }

  /** The words that extend `prefix` by `n` bits. */
  ghost function Words(prefix: seq<bool>, n: nat): (s: set<seq<bool>>)
    decreases n
  {
    if n == 0 then {prefix} else Words(prefix + [false], n - 1) + Words(prefix + [true], n - 1)
  }

  lemma {:induction false} WordsExtend(prefix: seq<bool>, n: nat, x: seq<bool>)
    ensures x in Words(prefix, n) <==> prefix <= x && |x| == |prefix| + n
    decreases n
  {
    if n != 0 {
      WordsExtend(prefix + [false], n - 1, x);
      WordsExtend(prefix + [true], n - 1, x);
      if prefix <= x && |x| == |prefix| + n {
        if x[|prefix|] {
          assert prefix + [true] <= x;
        } else {
          assert prefix + [false] <= x;
        }
      }
    } else if prefix <= x && |x| == |prefix| {
      assert x == prefix;
    }
  }

  lemma WordsDisjoint(a: seq<bool>, m: nat, b: seq<bool>, n: nat)
    requires !(a <= b) && !(b <= a)
    ensures Words(a, m) !! Words(b, n)
  {
    forall x | x in Words(a, m)
      ensures x !in Words(b, n)
    {
      WordsExtend(a, m, x);
      WordsExtend(b, n, x);
      if b <= x {
        PrefixesOfOneWord(a, b, x);
      }
    }
  }

  lemma PrefixesOfOneWord(a: seq<bool>, b: seq<bool>, x: seq<bool>)
    requires a <= x && b <= x
    ensures a <= b || b <= a
  {
  }

  lemma {:induction false} WordsSize(prefix: seq<bool>, n: nat)
    ensures |Words(prefix, n)| == Pow2(n)
    decreases n
  {
    if n != 0 {
      var zero, one := prefix + [false], prefix + [true];
      WordsSize(zero, n - 1);
      WordsSize(one, n - 1);
      assert zero[|prefix|] != one[|prefix|];
      WordsDisjoint(zero, n - 1, one, n - 1);
    }
  }

  /** The L-bit words that start with some code word. */
  ghost function Covered(codes: seq<seq<bool>>, L: nat): (s: set<seq<bool>>)
    requires forall i :: 0 <= i < |codes| ==> |codes[i]| <= L
  {
    if codes == [] then {} else Words(codes[0], L - |codes[0]|) + Covered(codes[1..], L)
  }

  lemma {:induction false} CoveredWord(codes: seq<seq<bool>>, L: nat, x: seq<bool>) returns (i: nat)
    requires forall i :: 0 <= i < |codes| ==> |codes[i]| <= L
    requires x in Covered(codes, L)
    ensures i < |codes| && codes[i] <= x && |x| == L
  {
    WordsExtend(codes[0], L - |codes[0]|, x);
    if x in Words(codes[0], L - |codes[0]|) {
      i := 0;
    } else {
      i := CoveredWord(codes[1..], L, x);
      i := i + 1;
    }
  }

  lemma {:induction false} CoveredSize(codes: seq<seq<bool>>, L: nat)
    requires forall i :: 0 <= i < |codes| ==> |codes[i]| <= L
    requires PrefixFree(codes)
    ensures |Covered(codes, L)| == Kraft(Lengths(codes), L)
  {
    if codes != [] {
      var c, rest := codes[0], codes[1..];
      assert Lengths(codes)[1..] == Lengths(rest);
      assert PrefixFree(rest) by {
        assert forall i :: 0 <= i < |rest| ==> rest[i] == codes[i + 1];
      }
      CoveredSize(rest, L);
      WordsSize(c, L - |c|);
      forall x | x in Covered(rest, L)
        ensures x !in Words(c, L - |c|)
      {
        WordsExtend(c, L - |c|, x);
        var i := CoveredWord(rest, L, x);
        assert rest[i] == codes[i + 1];
        if c <= x {
          PrefixesOfOneWord(c, rest[i], x);
        }
      }
      assert Words(c, L - |c|) !! Covered(rest, L);
    }
  }

  lemma SubsetSize<T>(a: set<T>, b: set<T>)
    requires a <= b
    ensures |a| <= |b|
  {
    assert b == a + (b - a);
  }

  /** Kraft's inequality: a prefix code cannot be denser than the binary tree. */
  lemma KraftInequality(codes: seq<seq<bool>>, L: nat)
    requires AllAtMost(Lengths(codes), L) && PrefixFree(codes)
    ensures Kraft(Lengths(codes), L) <= Pow2(L)
  {
    var ls := Lengths(codes);
    assert forall i :: 0 <= i < |codes| ==> |codes[i]| == ls[i] <= L;
    CoveredSize(codes, L);
    WordsSize([], L);
    forall x | x in Covered(codes, L) ensures x in Words([], L) {
      var i := CoveredWord(codes, L, x);
      WordsExtend([], L, x);
    }
    SubsetSize(Covered(codes, L), Words([], L));
  }

  // ---- Sums under update and removal

  lemma MulMonoLeft(a: nat, b: nat, p: nat)
    requires a <= b
    ensures a * p <= b * p
  {
  }

  lemma {:induction false} KraftUpdate(ls: seq<nat>, i: nat, x: nat, L: nat)
    requires i < |ls| && AllAtMost(ls, L) && x <= L
    ensures AllAtMost(ls[i := x], L)
    ensures Kraft(ls[i := x], L) + Pow2(L - ls[i]) == Kraft(ls, L) + Pow2(L - x)
  {
    if i == 0 {
      assert ls[i := x][1..] == ls[1..];
    } else {
      assert ls[i := x][1..] == ls[1..][i - 1 := x];
      KraftUpdate(ls[1..], i - 1, x, L);
    }
  }

  lemma {:induction false} KraftRemove(ls: seq<nat>, i: nat, L: nat)
    requires i < |ls| && AllAtMost(ls, L)
    ensures AllAtMost(Remove(ls, i), L)
    ensures Kraft(ls, L) == Kraft(Remove(ls, i), L) + Pow2(L - ls[i])
  {
    if i == 0 {
      assert Remove(ls, 0) == ls[1..];
    } else {
      KraftRemove(ls[1..], i - 1, L);
      assert Remove(ls, i)[0] == ls[0] && Remove(ls, i)[1..] == Remove(ls[1..], i - 1);
    }
  }

  lemma {:induction false} KraftScale(ls: seq<nat>, M: nat, L: nat)
    requires AllAtMost(ls, M) && M <= L
    ensures AllAtMost(ls, L) && Kraft(ls, L) == Kraft(ls, M) * Pow2(L - M)
  {
    if ls != [] {
      KraftScale(ls[1..], M, L);
      Pow2Add(M - ls[0], L - M);
      assert (M - ls[0]) + (L - M) == L - ls[0];
      assert (Pow2(M - ls[0]) + Kraft(ls[1..], M)) * Pow2(L - M)
          == Pow2(M - ls[0]) * Pow2(L - M) + Kraft(ls[1..], M) * Pow2(L - M);
    }
  }

  lemma {:induction false} CostUpdate(ws: seq<nat>, ls: seq<nat>, i: nat, w: nat, x: nat)
    requires |ws| == |ls| && i < |ls|
    ensures Cost(ws[i := w], ls[i := x]) + ws[i] * ls[i] == Cost(ws, ls) + w * x
  {
    if i == 0 {
      assert ls[i := x][1..] == ls[1..] && ws[i := w][1..] == ws[1..];
    } else {
      assert ls[i := x][1..] == ls[1..][i - 1 := x] && ws[i := w][1..] == ws[1..][i - 1 := w];
      CostUpdate(ws[1..], ls[1..], i - 1, w, x);
    }
  }

  lemma {:induction false} CostRemove(ws: seq<nat>, ls: seq<nat>, i: nat)
    requires |ws| == |ls| && i < |ls|
    ensures Cost(ws, ls) == Cost(Remove(ws, i), Remove(ls, i)) + ws[i] * ls[i]
  {
    if i == 0 {
      assert Remove(ls, 0) == ls[1..] && Remove(ws, 0) == ws[1..];
    } else {
      CostRemove(ws[1..], ls[1..], i - 1);
      assert Remove(ls, i)[0] == ls[0] && Remove(ls, i)[1..] == Remove(ls[1..], i - 1);
      assert Remove(ws, i)[0] == ws[0] && Remove(ws, i)[1..] == Remove(ws[1..], i - 1);
    }
  }

  lemma {:induction false} KraftConcat(a: seq<nat>, b: seq<nat>, L: nat)
    requires AllAtMost(a, L) && AllAtMost(b, L)
    ensures AllAtMost(a + b, L) && Kraft(a + b, L) == Kraft(a, L) + Kraft(b, L)
  {
    if a == [] {
      assert a + b == b;
    } else {
      assert (a + b)[1..] == a[1..] + b;
      KraftConcat(a[1..], b, L);
    }
  }

  lemma {:induction false} CostConcat(f: seq<nat>, ls: seq<nat>, g: seq<nat>, ms: seq<nat>)
    requires |f| == |ls| && |g| == |ms|
    ensures Cost(f + g, ls + ms) == Cost(f, ls) + Cost(g, ms)
  {
    if f == [] {
      assert f + g == g && ls + ms == ms;
    } else {
      assert (f + g)[1..] == f[1..] + g && (ls + ms)[1..] == ls[1..] + ms;
      CostConcat(f[1..], ls[1..], g, ms);
    }
  }

  lemma {:induction false} CostMono(ws: seq<nat>, a: seq<nat>, b: seq<nat>)
    requires |ws| == |a| == |b| && forall i :: 0 <= i < |ws| ==> a[i] <= b[i]
    ensures Cost(ws, a) <= Cost(ws, b)
  {
    if ws != [] {
      CostMono(ws[1..], a[1..], b[1..]);
      MulMono(ws[0], a[0], b[0]);
    }
  }

  lemma MultisetRemove(ws: seq<nat>, i: nat)
    requires i < |ws|
    ensures multiset(Remove(ws, i)) == multiset(ws) - multiset{ws[i]}
  {
    assert ws == ws[..i] + ([ws[i]] + ws[i + 1..]);
  }

  // ---- Huffman's process and its optimality

  ghost predicate Sorted(s: seq<nat>) {
    forall i, j :: 0 <= i <= j < |s| ==> s[i] <= s[j]
  }

  ghost function Insert(x: nat, s: seq<nat>): (r: seq<nat>)
    ensures |r| == |s| + 1
  {
    if s == [] || x <= s[0] then [x] + s else [s[0]] + Insert(x, s[1..])
  }

  lemma {:induction false} InsertSorted(x: nat, s: seq<nat>)
    requires Sorted(s)
    ensures Sorted(Insert(x, s)) && multiset(Insert(x, s)) == multiset(s) + multiset{x}
  {
    if s != [] && x > s[0] {
      InsertSorted(x, s[1..]);
      assert s == [s[0]] + s[1..];
      var r := Insert(x, s[1..]);
      assert Insert(x, s) == [s[0]] + r;
      forall j | 0 <= j < |r| ensures s[0] <= r[j] {
        assert r[j] in multiset(r);
        FromTail(s, x, r[j]);
      }
      ConsSorted(s[0], r);
    } else {
      ConsSorted(x, s);
    }
  }

  lemma FromTail(s: seq<nat>, x: nat, y: nat)
    requires s != [] && Sorted(s) && y in multiset(s[1..]) + multiset{x} && x >= s[0]
    ensures s[0] <= y
  {
    if y in multiset(s[1..]) {
      assert y in s[1..];
    }
  }

  lemma ConsSorted(x: nat, s: seq<nat>)
    requires Sorted(s) && forall j :: 0 <= j < |s| ==> x <= s[j]
    ensures Sorted([x] + s)
  {
  }

  /** Huffman's process on sorted weights: the total of all merged pairs. */
  ghost function HuffmanCost(s: seq<nat>): (c: nat)
    decreases |s|
  {
    if |s| <= 1 then 0 else s[0] + s[1] + HuffmanCost(Insert(s[0] + s[1], s[2..]))
  }

  lemma HeadIsLightest(s: seq<nat>, ws: seq<nat>) returns (i: nat)
    requires |s| >= 1 && Sorted(s) && multiset(s) == multiset(ws)
    ensures i < |ws| && ws[i] == s[0] && multiset(Remove(ws, i)) == multiset(s[1..])
    ensures forall k :: 0 <= k < |ws| ==> ws[i] <= ws[k]
  {
    assert s[0] in multiset(ws);
    i :| 0 <= i < |ws| && ws[i] == s[0];
    forall k | 0 <= k < |ws| ensures s[0] <= ws[k] {
      assert ws[k] in multiset(s);
    }
    MultisetRemove(ws, i);
    assert s == [s[0]] + s[1..];
  }

  /** Finds the two lightest weights in an unordered list. */
  lemma PickTwo(s: seq<nat>, ws: seq<nat>) returns (i: nat, j: nat)
    requires |s| >= 2 && Sorted(s) && multiset(s) == multiset(ws)
    ensures i < |ws| && j < |ws| && i != j && ws[i] == s[0] && ws[j] == s[1]
    ensures forall k :: 0 <= k < |ws| ==> ws[i] <= ws[k]
    ensures forall k :: 0 <= k < |ws| && k != i ==> ws[j] <= ws[k]
  {
    i := HeadIsLightest(s, ws);
    var r := Remove(ws, i);
    var j' := HeadIsLightest(s[1..], r);
    j := if j' < i then j' else j' + 1;
    forall k | 0 <= k < |ws| && k != i ensures ws[j] <= ws[k] {
      assert r[if k < i then k else k - 1] == ws[k];
    }
  }

  lemma ArgMax(ws: seq<nat>, skip: int) returns (i: nat)
    requires |ws| >= 1 && (|ws| >= 2 || skip < 0)
    ensures i < |ws| && i != skip
    ensures forall k :: 0 <= k < |ws| && k != skip ==> ws[i] >= ws[k]
  {
    i := if skip == 0 then 1 else 0;
    var n := 0;
    while n < |ws|
      invariant 0 <= n <= |ws| && i < |ws| && i != skip
      invariant forall k :: 0 <= k < n && k != skip ==> ws[i] >= ws[k]
    {
      if n != skip && ws[n] > ws[i] {
        i := n;
      }
      n := n + 1;
    }
  }

  function Swap(ls: seq<nat>, i: nat, j: nat): (r: seq<nat>)
    requires i < |ls| && j < |ls|
    ensures |r| == |ls|
  {
    ls[i := ls[j]][j := ls[i]]
  }

  /** Giving the longer of two code words to the lighter symbol costs nothing. */
  lemma SwapCheaper(ws: seq<nat>, ls: seq<nat>, i: nat, j: nat, L: nat)
    requires |ws| == |ls| && i < |ls| && j < |ls| && AllAtMost(ls, L)
    requires ws[i] <= ws[j] && ls[i] <= ls[j]
    ensures AllAtMost(Swap(ls, i, j), L)
    ensures Kraft(Swap(ls, i, j), L) == Kraft(ls, L)
    ensures Cost(ws, Swap(ls, i, j)) <= Cost(ws, ls)
  {
    if i == j {
      assert Swap(ls, i, j) == ls;
    } else {
      var l1 := ls[i := ls[j]];
      KraftUpdate(ls, i, ls[j], L);
      KraftUpdate(l1, j, ls[i], L);
      CostUpdate(ws, ls, i, ws[i], ls[j]);
      CostUpdate(ws, l1, j, ws[j], ls[i]);
      assert ws[i := ws[i]] == ws && ws[j := ws[j]] == ws;
      Rearrange(ws[i], ws[j], ls[i], ls[j]);
    }
  }

  lemma Rearrange(a: nat, b: nat, x: nat, y: nat)
    requires a <= b && x <= y
    ensures a * y + b * x <= a * x + b * y
  {
    assert (b - a) * (y - x) >= 0;
    assert (b - a) * (y - x) == b * y - b * x - a * y + a * x;
  }

  /** A unique longest code word can be shortened to the second longest. */
  lemma Shorten(ls: seq<nat>, i: nat, j: nat, L: nat)
    requires i < |ls| && j < |ls| && i != j && AllAtMost(ls, L) && Kraft(ls, L) <= Pow2(L)
    requires ls[i] >= ls[j] && forall k :: 0 <= k < |ls| && k != i ==> ls[k] <= ls[j]
    ensures AllAtMost(ls[i := ls[j]], L) && Kraft(ls[i := ls[j]], L) <= Pow2(L)
  {
    var M := ls[j];
    KraftUpdate(ls, i, M, L);
    if ls[i] > M {
      var rest := Remove(ls, i);
      KraftRemove(ls, i, L);
      assert AllAtMost(rest, M);
      KraftScale(rest, M, L);
      Pow2Add(M, L - M);
      assert M + (L - M) == L;
      BelowMultiple(Kraft(rest, M), Pow2(M), Pow2(L - M));
    }
  }

  lemma BelowMultiple(a: nat, b: nat, p: nat)
    requires a * p < b * p
    ensures a * p + p <= b * p
  {
    if a >= b {
      MulMonoLeft(b, a, p);
    } else {
      MulMonoLeft(a + 1, b, p);
      assert (a + 1) * p == a * p + p;
    }
  }

  lemma MergeArithmetic(a: nat, b: nat, M: nat)
    requires M >= 1
    ensures (a + b) * (M - 1) + a + b == a * M + b * M
  {
  }

  /** Replaces two sibling leaves by their parent. */
  lemma MergeSiblings(ws: seq<nat>, ls: seq<nat>, i: nat, j: nat, L: nat)
    requires |ws| == |ls| && i < |ls| && j < |ls| && i != j && AllAtMost(ls, L)
    requires ls[i] == ls[j] >= 1
    ensures var ws' := Remove(ws[j := ws[i] + ws[j]], i);
            var ls' := Remove(ls[j := ls[j] - 1], i);
            && AllAtMost(ls', L)
            && Kraft(ls', L) == Kraft(ls, L)
            && Cost(ws', ls') + ws[i] + ws[j] == Cost(ws, ls)
  {
    var M, w := ls[j], ws[i] + ws[j];
    var w1, l1 := ws[j := w], ls[j := M - 1];
    KraftUpdate(ls, j, M - 1, L);
    KraftRemove(l1, i, L);
    assert Pow2(L - (M - 1)) == 2 * Pow2(L - M);
    CostUpdate(ws, ls, j, w, M - 1);
    CostRemove(w1, l1, i);
    MergeArithmetic(ws[i], ws[j], M);
  }

  lemma MergeWeights(s: seq<nat>, ws: seq<nat>, i: nat, j: nat)
    requires |s| >= 2 && Sorted(s) && multiset(s) == multiset(ws)
    requires i < |ws| && j < |ws| && i != j && ws[i] == s[0] && ws[j] == s[1]
    ensures var s' := Insert(s[0] + s[1], s[2..]);
            Sorted(s') && multiset(s') == multiset(Remove(ws[j := ws[i] + ws[j]], i))
  {
    InsertSorted(s[0] + s[1], s[2..]);
    MergedParts(s, ws, i, j);
    assert Sorted(s[2..]);
  }

  lemma MergedParts(s: seq<nat>, ws: seq<nat>, i: nat, j: nat)
    requires |s| >= 2 && multiset(s) == multiset(ws)
    requires i < |ws| && j < |ws| && i != j && ws[i] == s[0] && ws[j] == s[1]
    ensures multiset(Remove(ws[j := ws[i] + ws[j]], i)) == multiset(s[2..]) + multiset{s[0] + s[1]}
  {
    MultisetMerge(ws, i, j);
    HeadParts(s);
    var r := multiset(Remove(ws[j := ws[i] + ws[j]], i));
    var a, b, x, c := multiset{s[0]}, multiset{s[1]}, multiset(s[2..]), multiset{s[0] + s[1]};
    assert r + a + b == a + (b + x) + c;
    MultisetCancel(r, a, b, x, c);
  }

  lemma HeadParts(s: seq<nat>)
    requires |s| >= 2
    ensures multiset(s) == multiset{s[0]} + (multiset{s[1]} + multiset(s[2..]))
  {
    assert s == [s[0]] + ([s[1]] + s[2..]);
  }

  lemma MultisetCancel(r: multiset<nat>, a: multiset<nat>, b: multiset<nat>, x: multiset<nat>, c: multiset<nat>)
    requires r + a + b == a + (b + x) + c
    ensures r == x + c
  {
    assert forall k :: (r + a + b)[k] == r[k] + a[k] + b[k] && (a + (b + x) + c)[k] == a[k] + b[k] + x[k] + c[k];
    assert forall k :: r[k] == (x + c)[k];
  }

  lemma MultisetMerge(ws: seq<nat>, i: nat, j: nat)
    requires i < |ws| && j < |ws| && i != j
    ensures multiset(Remove(ws[j := ws[i] + ws[j]], i)) + multiset{ws[i]} + multiset{ws[j]}
         == multiset(ws) + multiset{ws[i] + ws[j]}
  {
    var w := ws[i] + ws[j];
    var w1 := ws[j := w];
    MultisetRemove(w1, i);
    assert multiset(w1) + multiset{ws[j]} == multiset(ws) + multiset{w};
    assert w1[i] in multiset(w1);
  }

  lemma NonTrivialLength(ls: seq<nat>, i: nat, j: nat, L: nat)
    requires i < |ls| && j < |ls| && i != j && AllAtMost(ls, L) && Kraft(ls, L) <= Pow2(L)
    requires ls[i] == ls[j]
    ensures ls[j] >= 1
  {
    KraftRemove(ls, i, L);
    var r := Remove(ls, i);
    var j' := if j < i then j else j - 1;
    assert r[j'] == ls[j];
    KraftRemove(r, j', L);
  }

  /** Lengths no worse than `ls` in which the two lightest symbols are siblings. */
  lemma SiblingsFirst(ws: seq<nat>, ls: seq<nat>, i: nat, j: nat, L: nat) returns (r: seq<nat>)
    requires |ws| == |ls| && i < |ws| && j < |ws| && i != j
    requires forall k :: 0 <= k < |ws| ==> ws[i] <= ws[k]
    requires forall k :: 0 <= k < |ws| && k != i ==> ws[j] <= ws[k]
    requires AllAtMost(ls, L) && Kraft(ls, L) <= Pow2(L)
    ensures |r| == |ls| && AllAtMost(r, L) && Kraft(r, L) <= Pow2(L)
    ensures Cost(ws, r) <= Cost(ws, ls) && r[i] == r[j] >= 1
  {
    var m := ArgMax(ls, -1);
    SwapCheaper(ws, ls, i, m, L);
    var l1 := Swap(ls, i, m);
    var k := ArgMax(l1, i);
    SwapCheaper(ws, l1, j, k, L);
    var l2 := Swap(l1, j, k);
    Shorten(l2, i, j, L);
    r := l2[i := l2[j]];
    CostUpdate(ws, l2, i, ws[i], l2[j]);
    assert ws[i := ws[i]] == ws;
    Bits.MulMono(ws[i], l2[j], l2[i]);
    NonTrivialLength(r, i, j, L);
  }

  /** No lengths that obey Kraft's inequality beat Huffman's process. */
  lemma {:induction false} HuffmanIsOptimal(s: seq<nat>, ws: seq<nat>, ls: seq<nat>, L: nat)
    requires |ws| == |ls| >= 1
    requires Sorted(s) && multiset(s) == multiset(ws)
    requires AllAtMost(ls, L) && Kraft(ls, L) <= Pow2(L)
    ensures HuffmanCost(s) <= Cost(ws, ls)
    decreases |ws|
  {
    assert |s| == |multiset(s)| == |multiset(ws)| == |ws|;
    if |ws| > 1 {
      var i, j := PickTwo(s, ws);
      var r := SiblingsFirst(ws, ls, i, j, L);
      MergeSiblings(ws, r, i, j, L);
      MergeWeights(s, ws, i, j);
      HuffmanIsOptimal(Insert(s[0] + s[1], s[2..]), Remove(ws[j := ws[i] + ws[j]], i), Remove(r[j := r[j] - 1], i), L);
    }
  }

  /** The same bound for actual prefix codes. */
  lemma NoPrefixCodeIsCheaper(s: seq<nat>, codes: seq<seq<bool>>, L: nat)
    requires |s| == |codes| >= 1 && Sorted(s)
    requires PrefixFree(codes) && AllAtMost(Lengths(codes), L)
    ensures HuffmanCost(s) <= Cost(s, Lengths(codes))
  {
    KraftInequality(codes, L);
    HuffmanIsOptimal(s, s, Lengths(codes), L);
  }
}
