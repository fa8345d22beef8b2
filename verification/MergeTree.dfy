/**
 The tree that in-place minimum-redundancy coding builds, and what follows from
 its shape: the two queues of leaves and of merged nodes are consumed in order,
 two items at a time.
 */
module MergeTree {
  import opened Bits
  import opened OptimalCode

  function Sum(s: seq<nat>): (n: nat) {
    if s == [] then 0 else s[0] + Sum(s[1..])
  }

  lemma {:induction false} SumConcat(a: seq<nat>, b: seq<nat>)
    ensures Sum(a + b) == Sum(a) + Sum(b)
  {
    if a == [] {
      assert a + b == b;
    } else {
      assert (a + b)[1..] == a[1..] + b;
      SumConcat(a[1..], b);
    }
  }

  lemma SumSplitTo(s: seq<nat>, i: nat, j: nat, k: nat)
    requires i <= j <= k <= |s|
    ensures Sum(s[i..k]) == Sum(s[i..j]) + Sum(s[j..k])
  {
    assert s[i..k] == s[i..j] + s[j..k];
    SumConcat(s[i..j], s[j..k]);
  }

  lemma SumLast(s: seq<nat>)
    requires s != []
    ensures Sum(s) == Sum(s[..|s| - 1]) + s[|s| - 1]
  {
    var k := |s| - 1;
    assert s == s[..k] + [s[k]];
    SumConcat(s[..k], [s[k]]);
  }

  lemma SumSnoc(s: seq<nat>, i: nat, k: nat)
    requires i <= k < |s|
    ensures Sum(s[i..k + 1]) == Sum(s[i..k]) + s[k]
  {
    SumSplitTo(s, i, k, k + 1);
    assert s[k..k + 1] == [s[k]];
  }

  lemma {:induction false} SumUpdate(s: seq<nat>, i: nat, v: nat)
    requires i < |s|
    ensures Sum(s[i := v]) + s[i] == Sum(s) + v
  {
    if i == 0 {
      assert s[i := v][1..] == s[1..];
    } else {
      assert s[i := v][1..] == s[1..][i - 1 := v];
      SumUpdate(s[1..], i - 1, v);
    }
  }

  lemma {:induction false} SumZero(s: seq<nat>)
    requires forall i :: 0 <= i < |s| ==> s[i] == 0
    ensures Sum(s) == 0
  {
    if s != [] {
      SumZero(s[1..]);
    }
  }

  /**
   A merge history over leaves of weights `f`. Node `t` has weight `W[t]`;
   before it is made, `R[t]` nodes and `2t - R[t]` leaves have found a parent.
   `P` and `Q` are the parents of nodes and leaves; `B[t]` is the weight of the
   heavier child of node `t`.
   */
  datatype Tree = Tree(W: seq<nat>, B: seq<nat>, R: seq<nat>, P: seq<nat>, Q: seq<nat>)
  {
    ghost predicate Shape(f: seq<nat>) {
      && |B| == |W|
      && |R| == |W| + 1
      && R[0] == 0
      && (forall t, u :: 0 <= t < |W| && u == t + 1 ==> R[t] <= R[u] <= t && R[u] <= R[t] + 2)
      && (forall t :: 0 <= t <= |W| ==> 2 * t - R[t] <= |f|)
      && |P| == R[|W|] && |Q| == 2 * |W| - R[|W|]
    }

    /** How many leaves have a parent before node `t` is made. */
    function L(t: nat): int
      requires t < |R|
    {
      2 * t - R[t]
    }

    ghost predicate Step(f: seq<nat>, t: nat)
      requires Shape(f) && t < |W|
    {
      RMono(f, t + 1, |W|);
      var prev := if t == 0 then 0 else B[t - 1];
      && prev <= B[t] <= W[t]
      && W[t] == Sum(W[R[t]..R[t + 1]]) + Sum(f[L(t)..L(t + 1)])
      && (forall i :: R[t] <= i < R[t + 1] ==> P[i] == t && prev <= W[i] <= B[t])
      && (forall j :: L(t) <= j < L(t + 1) ==> Q[j] == t && prev <= f[j] <= B[t])
    }

    lemma {:induction false} RMono(f: seq<nat>, t: nat, u: nat)
      requires Shape(f) && t <= u <= |W|
      ensures R[t] <= R[u] && L(t) <= L(u) && (t >= 1 ==> R[t] <= t - 1)
      ensures 0 <= L(t) <= |f|
    {
      if t < u {
        RMono(f, t, u - 1);
      } else if t > 0 {
        RMono(f, t - 1, t - 1);
      }
    }

    ghost predicate Valid(f: seq<nat>) {
      Shape(f) && forall t :: 0 <= t < |W| ==> Step(f, t)
    }

    /** All leaves share one root. */
    ghost predicate Complete(f: seq<nat>) {
      Valid(f) && |f| >= 2 && |W| == |f| - 1 && R[|W|] == |f| - 2
    }

    lemma ParentOf(f: seq<nat>, i: nat)
      requires Valid(f) && i < |P|
      ensures i < P[i] < |W| && R[P[i]] <= i < R[P[i] + 1]
    {
      var t := |W|;
      while i < R[t]
        invariant 0 <= t <= |W|
        invariant t == |W| || i < R[t + 1]
        decreases t
      {
        if t == 0 { break; }
        t := t - 1;
      }
      assert Step(f, t);
    }

    lemma LeafParentOf(f: seq<nat>, j: nat)
      requires Valid(f) && j < |Q|
      ensures Q[j] < |W| && L(Q[j]) <= j < L(Q[j] + 1)
    {
      var t := |W|;
      while j < L(t)
        invariant 0 <= t <= |W|
        invariant t == |W| || j < L(t + 1)
        decreases t
      {
        if t == 0 { break; }
        t := t - 1;
      }
      assert Step(f, t);
    }

    lemma ParentsOrdered(f: seq<nat>, i: nat, j: nat)
      requires Valid(f) && i <= j < |P|
      ensures P[i] < |W| && P[j] < |W| && P[i] <= P[j]
    {
      ParentOf(f, i);
      ParentOf(f, j);
      if P[j] < P[i] {
        RMono(f, P[j] + 1, P[i]);
      }
    }

    lemma LeafParentsOrdered(f: seq<nat>, i: nat, j: nat)
      requires Valid(f) && i <= j < |Q|
      ensures Q[i] < |W| && Q[j] < |W| && Q[i] <= Q[j]
    {
      LeafParentOf(f, i);
      LeafParentOf(f, j);
      if Q[j] < Q[i] {
        RMono(f, Q[j] + 1, Q[i]);
      }
    }

    /** Distance of node `i` from the root. */
    ghost function Depth(f: seq<nat>, i: nat): (d: nat)
      requires Complete(f) && i < |W|
      ensures d <= |W| - 1 - i
      decreases |W| - i
    {
      if i == |W| - 1 then 0 else ParentOf(f, i); 1 + Depth(f, P[i])
    }

    ghost function Depths(f: seq<nat>): (s: seq<nat>)
      requires Complete(f)
      ensures |s| == |W| && forall i :: 0 <= i < |W| ==> s[i] == Depth(f, i)
    {
      seq(|W|, i requires 0 <= i < |W| => Depth(f, i))
    }

    ghost function LeafDepth(f: seq<nat>, j: nat): (d: nat)
      requires Complete(f) && j < |f|
      ensures 1 <= d <= |W|
    {
      LeafParentOf(f, j);
      1 + Depth(f, Q[j])
    }

    ghost function LeafDepths(f: seq<nat>): (s: seq<nat>)
      requires Complete(f)
      ensures |s| == |f| && forall j :: 0 <= j < |f| ==> s[j] == LeafDepth(f, j)
    {
      seq(|f|, j requires 0 <= j < |f| => LeafDepth(f, j))
    }

    /** Nodes made later are never deeper. */
    lemma {:induction false} DepthsOrdered(f: seq<nat>, i: nat, j: nat)
      requires Complete(f) && i <= j < |W|
      ensures Depth(f, i) >= Depth(f, j)
      decreases |W| - i
    {
      if i < j {
        ParentOf(f, i);
        if j < |W| - 1 {
          ParentOf(f, j);
          ParentsOrdered(f, i, j);
          DepthsOrdered(f, P[i], P[j]);
        }
      }
    }

    lemma LeafDepthsOrdered(f: seq<nat>, i: nat, j: nat)
      requires Complete(f) && i <= j < |f|
      ensures LeafDepth(f, i) >= LeafDepth(f, j)
    {
      LeafParentsOrdered(f, i, j);
      LeafParentOf(f, i);
      LeafParentOf(f, j);
      DepthsOrdered(f, Q[i], Q[j]);
    }

    // ---- Sums over the history

    /** The items consumed by merge `t` are worth `c[t]`. */
    ghost predicate Consumes(f: seq<nat>, gn: seq<nat>, gl: seq<nat>, c: seq<nat>, t: nat)
      requires Shape(f) && |gn| == |W| && |gl| == |f| && |c| == |W| && t < |W|
    {
      RMono(f, t, t + 1);
      RMono(f, t + 1, |W|);
      Sum(gn[R[t]..R[t + 1]]) + Sum(gl[L(t)..L(t + 1)]) == c[t]
    }

    lemma {:induction false} ConsumedBefore(f: seq<nat>, gn: seq<nat>, gl: seq<nat>, c: seq<nat>, t: nat)
      requires Shape(f) && |gn| == |W| && |gl| == |f| && |c| == |W| && t <= |W|
      requires forall u :: 0 <= u < |W| ==> Consumes(f, gn, gl, c, u)
      ensures R[t] <= t && 0 <= L(t) <= |f|
      ensures Sum(gl[..L(t)]) + Sum(gn[..R[t]]) == Sum(c[..t])
    {
      RMono(f, t, |W|);
      if t > 0 {
        var u := t - 1;
        ConsumedBefore(f, gn, gl, c, u);
        RMono(f, u, t);
        assert Consumes(f, gn, gl, c, u);
        SumSplitTo(gl, 0, L(u), L(t));
        SumSplitTo(gn, 0, R[u], R[t]);
        SumSnoc(c, 0, u);
        assert gl[0..L(u)] == gl[..L(u)] && gl[0..L(t)] == gl[..L(t)];
        assert gn[0..R[u]] == gn[..R[u]] && gn[0..R[t]] == gn[..R[t]];
        assert c[0..u] == c[..u] && c[0..t] == c[..t];
      }
    }

    /** Every leaf and every node but the root is consumed exactly once. */
    lemma AllConsumed(f: seq<nat>, gn: seq<nat>, gl: seq<nat>, c: seq<nat>)
      requires Complete(f) && |gn| == |W| && |gl| == |f| && |c| == |W|
      requires forall u :: 0 <= u < |W| ==> Consumes(f, gn, gl, c, u)
      ensures Sum(gl) + Sum(gn) == Sum(c) + gn[|W| - 1]
    {
      var t := |W|;
      ConsumedBefore(f, gn, gl, c, t);
      assert L(t) == |f| && R[t] == t - 1;
      assert gl[..L(t)] == gl && c[..t] == c;
      SumLast(gn);
    }

    /** The two children of node `t` contribute `x` each. */
    lemma TwoChildren(f: seq<nat>, gn: seq<nat>, gl: seq<nat>, t: nat, x: nat)
      requires Shape(f) && |gn| == |W| && |gl| == |f| && t < |W|
      requires forall i :: R[t] <= i < R[t + 1] ==> gn[i] == x
      requires forall j :: L(t) <= j < L(t + 1) && 0 <= j < |f| ==> gl[j] == x
      ensures R[t + 1] <= |W| && 0 <= L(t) <= L(t + 1) <= |f|
      ensures Sum(gn[R[t]..R[t + 1]]) + Sum(gl[L(t)..L(t + 1)]) == 2 * x
    {
      RMono(f, t, t + 1);
      RMono(f, t + 1, |W|);
      SumUpToTwo(gn[R[t]..R[t + 1]], x);
      SumUpToTwo(gl[L(t)..L(t + 1)], x);
    }
  }

  lemma SumUpToTwo(s: seq<nat>, x: nat)
    requires |s| <= 2 && forall i :: 0 <= i < |s| ==> s[i] == x
    ensures Sum(s) == if |s| == 0 then 0 else if |s| == 1 then x else 2 * x
  {
  }

  // ---- What a complete tree is worth

  lemma ChildDepths(T: Tree, f: seq<nat>, t: nat)
    requires T.Complete(f) && t < |T.W|
    ensures forall i :: T.R[t] <= i < T.R[t + 1] ==> i < |T.W| && T.Depth(f, i) == T.Depth(f, t) + 1
    ensures forall j :: T.L(t) <= j < T.L(t + 1) && 0 <= j < |f| ==> T.LeafDepth(f, j) == T.Depth(f, t) + 1
  {
    T.RMono(f, t + 1, |T.W|);
    assert T.Step(f, t);
  }

  lemma Distribute(a: nat, b: nat, c: nat)
    ensures (a + b) * c == a * c + b * c
  {
  }

  lemma OneDeeper(a: nat, b: nat, w: nat, d: nat)
    requires w == a + b
    ensures a * (d + 1) + b * (d + 1) == w * d + w
  {
    Distribute(a, b, d + 1);
    assert w * (d + 1) == w * d + w;
  }

  lemma {:induction false} ScaledSum(s: seq<nat>, r: seq<nat>, c: nat)
    requires |s| == |r| && forall i :: 0 <= i < |s| ==> r[i] == s[i] * c
    ensures Sum(r) == Sum(s) * c
  {
    if s != [] {
      ScaledSum(s[1..], r[1..], c);
      Distribute(s[0], Sum(s[1..]), c);
    }
  }

  lemma {:induction false} SumPlus(a: seq<nat>, b: seq<nat>, c: seq<nat>)
    requires |a| == |b| == |c| && forall i :: 0 <= i < |a| ==> c[i] == a[i] + b[i]
    ensures Sum(c) == Sum(a) + Sum(b)
  {
    if a != [] {
      SumPlus(a[1..], b[1..], c[1..]);
    }
  }

  lemma {:induction false} CostIsSum(ws: seq<nat>, ls: seq<nat>, g: seq<nat>)
    requires |ws| == |ls| == |g| && forall i :: 0 <= i < |ws| ==> g[i] == ws[i] * ls[i]
    ensures Cost(ws, ls) == Sum(g)
  {
    if ws != [] {
      CostIsSum(ws[1..], ls[1..], g[1..]);
    }
  }

  lemma {:induction false} KraftIsSum(ls: seq<nat>, L: nat, g: seq<nat>)
    requires |ls| == |g| && AllAtMost(ls, L) && forall i :: 0 <= i < |ls| ==> g[i] == Pow2(L - ls[i])
    ensures Kraft(ls, L) == Sum(g)
  {
    if ls != [] {
      KraftIsSum(ls[1..], L, g[1..]);
    }
  }

  /** The root weighs as much as all leaves. */
  lemma RootWeight(T: Tree, f: seq<nat>)
    requires T.Complete(f)
    ensures T.W[|T.W| - 1] == Sum(f)
  {
    forall u | 0 <= u < |T.W| ensures T.Consumes(f, T.W, f, T.W, u) {
      assert T.Step(f, u);
    }
    T.AllConsumed(f, T.W, f, T.W);
  }

  /** The leaves cost as much as all merged weights together. */
  lemma TreeCost(T: Tree, f: seq<nat>)
    requires T.Complete(f)
    ensures Cost(f, T.LeafDepths(f)) == Sum(T.W)
  {
    var n, W, D, D' := |T.W|, T.W, T.Depths(f), T.LeafDepths(f);
    var gn := seq(n, i requires 0 <= i < n => W[i] * D[i]);
    var gl := seq(|f|, j requires 0 <= j < |f| => f[j] * D'[j]);
    var c := seq(n, i requires 0 <= i < n => gn[i] + W[i]);
    forall t | 0 <= t < n ensures T.Consumes(f, gn, gl, c, t) {
      TreeCostStep(T, f, gn, gl, c, t);
    }
    T.AllConsumed(f, gn, gl, c);
    SumPlus(gn, W, c);
    CostIsSum(f, D', gl);
  }

  lemma TreeCostStep(T: Tree, f: seq<nat>, gn: seq<nat>, gl: seq<nat>, c: seq<nat>, t: nat)
    requires T.Complete(f) && t < |T.W| && |gn| == |c| == |T.W| && |gl| == |f|
    requires forall i :: 0 <= i < |T.W| ==> gn[i] == T.W[i] * T.Depth(f, i) && c[i] == gn[i] + T.W[i]
    requires forall j :: 0 <= j < |f| ==> gl[j] == f[j] * T.LeafDepth(f, j)
    ensures T.Consumes(f, gn, gl, c, t)
  {
    T.RMono(f, t, t + 1);
    T.RMono(f, t + 1, |T.W|);
    ChildDepths(T, f, t);
    var d := T.Depth(f, t) + 1;
    var r, r', l, l' := T.R[t], T.R[t + 1], T.L(t), T.L(t + 1);
    ScaledSum(T.W[r..r'], gn[r..r'], d);
    ScaledSum(f[l..l'], gl[l..l'], d);
    NodeIsSum(T, f, t);
    OneDeeper(Sum(T.W[r..r']), Sum(f[l..l']), T.W[t], T.Depth(f, t));
  }

  lemma NodeIsSum(T: Tree, f: seq<nat>, t: nat)
    requires T.Complete(f) && t < |T.W|
    ensures T.R[t] <= T.R[t + 1] <= |T.W| && 0 <= T.L(t) <= T.L(t + 1) <= |f|
    ensures T.W[t] == Sum(T.W[T.R[t]..T.R[t + 1]]) + Sum(f[T.L(t)..T.L(t + 1)])
  {
    T.RMono(f, t, t + 1);
    T.RMono(f, t + 1, |T.W|);
    assert T.Step(f, t);
  }

  /** The leaves fill the tree: their Kraft sum is exactly one. */
  lemma TreeKraft(T: Tree, f: seq<nat>, L: nat)
    requires T.Complete(f) && AllAtMost(T.LeafDepths(f), L)
    ensures Kraft(T.LeafDepths(f), L) == Pow2(L)
  {
    var D' := T.LeafDepths(f);
    var H := L + |T.W|;
    TreeKraftDeep(T, f, H);
    KraftScale(D', L, H);
    Pow2Add(L, H - L);
    assert L + (H - L) == H;
    Cancel(Kraft(D', L), Pow2(L), Pow2(H - L));
  }

  lemma Cancel(a: nat, b: nat, p: nat)
    requires a * p == b * p && p > 0
    ensures a == b
  {
  }

  lemma TreeKraftDeep(T: Tree, f: seq<nat>, H: nat)
    requires T.Complete(f) && |T.W| <= H
    ensures AllAtMost(T.LeafDepths(f), H) && Kraft(T.LeafDepths(f), H) == Pow2(H)
  {
    var n, D, D' := |T.W|, T.Depths(f), T.LeafDepths(f);
    var gn := seq(n, i requires 0 <= i < n => Pow2(H - D[i]));
    var gl := seq(|f|, j requires 0 <= j < |f| => Pow2(H - D'[j]));
    forall t | 0 <= t < n ensures T.Consumes(f, gn, gl, gn, t) {
      ShareOfChildren(T, f, H, gn, gl, t);
    }
    T.AllConsumed(f, gn, gl, gn);
    KraftIsSum(D', H, gl);
  }

  lemma ShareOfChildren(T: Tree, f: seq<nat>, H: nat, gn: seq<nat>, gl: seq<nat>, t: nat)
    requires T.Complete(f) && |T.W| <= H && t < |T.W| && |gn| == |T.W| && |gl| == |f|
    requires forall i :: 0 <= i < |T.W| ==> gn[i] == Pow2(H - T.Depth(f, i))
    requires forall j :: 0 <= j < |f| ==> gl[j] == Pow2(H - T.LeafDepth(f, j))
    ensures T.Consumes(f, gn, gl, gn, t)
  {
    ChildDepths(T, f, t);
    T.TwoChildren(f, gn, gl, t, Pow2(H - T.Depth(f, t) - 1));
  }

  function Indicator(s: seq<nat>, d: nat): (r: seq<nat>)
    ensures |r| == |s| && forall i :: 0 <= i < |s| ==> r[i] == if s[i] == d then 1 else 0
  {
    seq(|s|, i requires 0 <= i < |s| => if s[i] == d then 1 else 0)
  }

  /** How many elements of `s` equal `d`. */
  function CountOf(s: seq<nat>, d: nat): nat {
    Sum(Indicator(s, d))
  }

  lemma {:induction false} SumDouble(a: seq<nat>, c: seq<nat>)
    requires |a| == |c| && forall i :: 0 <= i < |a| ==> c[i] == 2 * a[i]
    ensures Sum(c) == 2 * Sum(a)
  {
    if a != [] {
      SumDouble(a[1..], c[1..]);
    }
  }

  /** Each level holds twice as many items as the level above has inner nodes. */
  lemma LevelSizes(T: Tree, f: seq<nat>, e: nat)
    requires T.Complete(f)
    ensures CountOf(T.Depths(f), e + 1) + CountOf(T.LeafDepths(f), e + 1) == 2 * CountOf(T.Depths(f), e)
  {
    var n, D, D' := |T.W|, T.Depths(f), T.LeafDepths(f);
    var gn, gl, here := Indicator(D, e + 1), Indicator(D', e + 1), Indicator(D, e);
    var c := seq(n, i requires 0 <= i < n => 2 * here[i]);
    forall t | 0 <= t < n ensures T.Consumes(f, gn, gl, c, t) {
      ChildDepths(T, f, t);
      T.TwoChildren(f, gn, gl, t, here[t]);
    }
    T.AllConsumed(f, gn, gl, c);
    assert D[n - 1] == 0;
    SumDouble(here, c);
  }

  // ---- Depth is bounded by Fibonacci growth

  function Fib(n: nat): nat {
    if n <= 1 then n else Fib(n - 1) + Fib(n - 2)
  }

  /** A node's parent outweighs it by at least the node's own heavier child. */
  lemma ParentWeight(T: Tree, f: seq<nat>, p: nat)
    requires T.Complete(f) && p < |T.W| - 1
    ensures var q := T.P[p]; p < q < |T.W| && T.W[q] >= T.W[p] + T.B[p] && T.B[q] >= T.W[p]
  {
    T.ParentOf(f, p);
    var q := T.P[p];
    assert T.Step(f, q);
    HeavierLater(T, f, p, q - 1);
    SiblingWeight(T, f, p, q);
  }

  lemma SiblingWeight(T: Tree, f: seq<nat>, p: nat, q: nat)
    requires T.Complete(f) && 1 <= q < |T.W| && T.R[q] <= p < T.R[q + 1]
    ensures p < q && T.W[q] >= T.W[p] + T.B[q - 1]
  {
    assert T.Step(f, q);
    T.RMono(f, q, q + 1);
    T.RMono(f, q + 1, |T.W|);
    var r, l := T.R[q], T.L(q);
    if T.R[q + 1] == r + 2 {
      assert T.W[r..r + 2] == [T.W[r], T.W[r + 1]] && f[l..l] == [];
      PairSum(T.W[r], T.W[r + 1]);
    } else {
      assert T.W[r..r + 1] == [T.W[r]] && f[l..l + 1] == [f[l]];
    }
  }

  lemma PairSum(a: nat, b: nat)
    ensures Sum([a, b]) == a + b
  {
    assert [a, b][1..] == [b] && [b][1..] == [];
    assert Sum([b]) == b;
  }

  lemma {:induction false} HeavierLater(T: Tree, f: seq<nat>, p: nat, q: nat)
    requires T.Complete(f) && p <= q < |T.W|
    ensures T.B[p] <= T.B[q]
  {
    if p < q {
      HeavierLater(T, f, p, q - 1);
      assert T.Step(f, q);
    }
  }

  lemma FibStep(w: nat, k: nat)
    ensures w * Fib(k + 3) == w * Fib(k + 2) + w * Fib(k + 1)
  {
  }

  /** A leaf at depth d forces a total weight of at least Fib(d + 2). */
  lemma DepthNeedsWeight(T: Tree, f: seq<nat>, j: nat)
    requires T.Complete(f) && j < |f|
    requires forall i :: 0 <= i < |f| ==> f[i] >= 1
    ensures Sum(f) >= Fib(T.LeafDepth(f, j) + 2)
  {
    LeafParentWeight(T, f, j);
    AtLeastTwo(T, f, T.Q[j]);
    assert Fib(2) == 1 && Fib(3) == 2;
    ScaledClimb(T, f, 1, T.Q[j], 1);
    RootWeight(T, f);
  }

  lemma LeafParentWeight(T: Tree, f: seq<nat>, j: nat)
    requires T.Complete(f) && j < |f|
    ensures j < |T.Q| && T.Q[j] < |T.W| && T.W[T.Q[j]] >= T.B[T.Q[j]] >= f[j]
  {
    T.LeafParentOf(f, j);
    assert T.Step(f, T.Q[j]);
  }

  lemma {:induction false} ScaledClimb(T: Tree, f: seq<nat>, w: nat, p: nat, k: nat)
    requires T.Complete(f) && p < |T.W|
    requires T.W[p] >= w * Fib(k + 2) && T.B[p] >= w * Fib(k + 1)
    ensures T.W[|T.W| - 1] >= w * Fib(k + 2 + T.Depth(f, p))
    decreases |T.W| - p
  {
    if p < |T.W| - 1 {
      ParentWeight(T, f, p);
      FibStep(w, k);
      ScaledClimb(T, f, w, T.P[p], k + 1);
    }
  }

  /** The deeper a leaf is, the smaller is its share of the total. */
  lemma LeafShare(T: Tree, f: seq<nat>, j: nat)
    requires T.Complete(f) && j < |f|
    ensures f[j] * Fib(T.LeafDepth(f, j) + 1) <= Sum(f)
  {
    LeafParentWeight(T, f, j);
    assert Fib(1) == 1 && Fib(2) == 1;
    ScaledClimb(T, f, f[j], T.Q[j], 0);
    RootWeight(T, f);
  }

  lemma {:induction false} AtLeastTwo(T: Tree, f: seq<nat>, p: nat)
    requires T.Complete(f) && p < |T.W|
    requires forall i :: 0 <= i < |f| ==> f[i] >= 1
    ensures T.W[p] >= 2
    decreases p
  {
    assert T.Step(f, p);
    T.RMono(f, p, p + 1);
    T.RMono(f, p + 1, |T.W|);
    var sn, sl := T.W[T.R[p]..T.R[p + 1]], f[T.L(p)..T.L(p + 1)];
    forall i | 0 <= i < |sn| ensures sn[i] >= 1 {
      AtLeastTwo(T, f, T.R[p] + i);
    }
    assert forall j :: 0 <= j < |sl| ==> sl[j] == f[T.L(p) + j];
    SumAtLeast(sn);
    SumAtLeast(sl);
  }

  lemma SumAtLeast(s: seq<nat>)
    requires |s| <= 2 && forall i :: 0 <= i < |s| ==> s[i] >= 1
    ensures Sum(s) >= |s|
  {
  }

  lemma {:induction false} FibMono(a: nat, b: nat)
    requires a <= b
    ensures Fib(a) <= Fib(b)
    decreases b
  {
    if a < b {
      FibMono(a, b - 1);
      if b == 1 {
        assert Fib(0) == 0;
      }
    }
  }

  lemma FibValues()
    ensures Fib(25) == 75025
  {
    assert Fib(8) == 21 && Fib(9) == 34;
    assert Fib(12) == 144 && Fib(13) == 233;
    assert Fib(16) == 987 && Fib(17) == 1597;
    assert Fib(20) == 6765 && Fib(21) == 10946;
    assert Fib(23) == 28657 && Fib(24) == 46368;
  }

  /** Sixteen-bit totals keep every leaf within depth 22. */
  lemma DepthAtMost22(T: Tree, f: seq<nat>, j: nat)
    requires T.Complete(f) && j < |f| && Sum(f) < 0x1_0000
    requires forall i :: 0 <= i < |f| ==> f[i] >= 1
    ensures T.LeafDepth(f, j) <= 22
  {
    DepthNeedsWeight(T, f, j);
    FibValues();
    if T.LeafDepth(f, j) > 22 {
      FibMono(25, T.LeafDepth(f, j) + 2);
    }
  }
}
