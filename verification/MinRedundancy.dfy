/**
 In-place minimum-redundancy code lengths (Moffat and Katajainen). One array
 holds, over time, leaf weights, merged weights, parent links, inner depths and
 finally leaf depths.
 */
module MinRedundancy {
  import opened Bits
  import opened OptimalCode
  import opened MergeTree

  type U16 = x: nat | x < 0x1_0000

  /** `tdefl_sym_freq`: a sort key and the symbol it belongs to. */
  datatype SymFreq = SymFreq(key: U16, sym: U16)

  function Keys(a: seq<SymFreq>): (s: seq<nat>)
    ensures |s| == |a| && forall i :: 0 <= i < |a| ==> s[i] == a[i].key
  {
    seq(|a|, i requires 0 <= i < |a| => a[i].key)
  }

  function Syms(a: seq<SymFreq>): (s: seq<nat>)
    ensures |s| == |a| && forall i :: 0 <= i < |a| ==> s[i] == a[i].sym
  {
    seq(|a|, i requires 0 <= i < |a| => a[i].sym)
  }

  // ---- Which item the two queues offer next

  /** Ties and empty queues: a leaf is taken unless the merged node is lighter. */
  ghost predicate TakesNode(x: seq<nat>, y: seq<nat>) {
    y == [] || (x != [] && x[0] < y[0])
  }

  lemma HeadOfQueues(s: seq<nat>, x: seq<nat>, y: seq<nat>)
    requires |s| >= 1 && Sorted(s) && Sorted(x) && Sorted(y)
    requires multiset(s) == multiset(x) + multiset(y)
    ensures TakesNode(x, y) ==> x != [] && s[0] == x[0] && multiset(s[1..]) == multiset(x[1..]) + multiset(y)
    ensures !TakesNode(x, y) ==> y != [] && s[0] == y[0] && multiset(s[1..]) == multiset(x) + multiset(y[1..])
  {
    assert |multiset(s)| == |multiset(x)| + |multiset(y)|;
    if TakesNode(x, y) {
      LighterQueue(s, x, y);
    } else {
      LighterQueue(s, y, x);
    }
  }

  lemma LighterQueue(s: seq<nat>, x: seq<nat>, y: seq<nat>)
    requires |s| >= 1 && Sorted(s) && Sorted(x) && Sorted(y) && x != [] && (y == [] || x[0] <= y[0])
    requires multiset(s) == multiset(x) + multiset(y)
    ensures s[0] == x[0] && multiset(s[1..]) == multiset(x[1..]) + multiset(y)
  {
    OthersAbove(x, x[0]);
    OthersAbove(y, x[0]);
    assert x[0] in multiset(x);
    HeadIs(s, x[0]);
    HeadSplit(s);
    HeadSplit(x);
    assert multiset(s[1..]) + multiset{x[0]} == (multiset(x[1..]) + multiset(y)) + multiset{x[0]};
    CancelOne(multiset(s[1..]), x[0], multiset(x[1..]) + multiset(y));
  }

  lemma HeadSplit(s: seq<nat>)
    requires s != []
    ensures multiset(s) == multiset(s[1..]) + multiset{s[0]}
  {
    assert s == [s[0]] + s[1..];
  }

  lemma CancelOne(r: multiset<nat>, v: nat, a: multiset<nat>)
    requires r + multiset{v} == a + multiset{v}
    ensures r == a
  {
    assert r == (r + multiset{v}) - multiset{v};
  }

  lemma HeadIs(s: seq<nat>, v: nat)
    requires |s| >= 1 && Sorted(s) && v in multiset(s)
    requires forall w :: w in multiset(s) ==> v <= w
    ensures s[0] == v
  {
    assert s[0] in multiset(s);
    assert v in s;
  }

  lemma OthersAbove(x: seq<nat>, v: nat)
    requires Sorted(x) && (x != [] ==> v <= x[0])
    ensures forall w :: w in multiset(x) ==> v <= w
  {
    forall w | w in multiset(x) ensures v <= w {
      assert w in x;
    }
  }

  // ---- First phase: building the tree

  /** Later items are never lighter than earlier ones. */
  ghost predicate InOrder(T: Tree, f: seq<nat>) {
    var t := |T.W|;
    && T.Valid(f) && 1 <= t < |f|
    && Sorted(f) && Sorted(T.W)
    && T.W[t - 1] <= 2 * T.B[t - 1]
    && 0 <= T.L(t) && T.R[t] < t
    && (forall i :: T.R[t] <= i < t ==> T.B[t - 1] <= T.W[i])
    && (forall j :: T.L(t) <= j < |f| ==> T.B[t - 1] <= f[j])
  }

  ghost predicate Framed(T: Tree, f: seq<nat>) {
    var t := |T.W|;
    |T.R| == t + 1 && T.R[t] <= t && 0 <= T.L(t) <= |f|
  }

  /** `s` lists the open items in order; the work done so far is accounted for. */
  ghost predicate Open(T: Tree, f: seq<nat>, s: seq<nat>)
    requires Framed(T, f)
  {
    var t := |T.W|;
    && Sorted(s) && multiset(s) == multiset(T.W[T.R[t]..]) + multiset(f[T.L(t)..])
    && CostKept(f, T.W, s)
  }

  /** The merges so far and those to come cost what Huffman's process costs; kept closed. */
  ghost predicate CostKept(f: seq<nat>, W: seq<nat>, s: seq<nat>) {
    forall k {:trigger Shown(f, k)} :: Shown(f, k) ==> HuffmanCost(f) == Sum(W) + HuffmanCost(s)
  }

  /** The state between two merges. */
  ghost predicate Growing(T: Tree, f: seq<nat>, s: seq<nat>) {
    InOrder(T, f) && Open(T, f, s)
  }

  ghost function FirstTree(f: seq<nat>): Tree
    requires |f| >= 2
  {
    Tree([f[0] + f[1]], [f[1]], [0, 0], [], [0, 0])
  }

  lemma FirstMerge(f: seq<nat>)
    requires |f| >= 2 && Sorted(f)
    ensures Growing(FirstTree(f), f, Insert(f[0] + f[1], f[2..]))
  {
    var T := FirstTree(f);
    FirstTreeValid(f);
    InsertSorted(f[0] + f[1], f[2..]);
    assert T.W[0..] == T.W;
    FirstCost(f, T.W);
  }

  lemma FirstCost(f: seq<nat>, W: seq<nat>)
    requires |f| >= 2 && W == [f[0] + f[1]]
    ensures CostKept(f, W, Insert(f[0] + f[1], f[2..]))
  {
    OneMerge(f);
    assert Sum(W) == f[0] + f[1];
  }

  lemma FirstTreeValid(f: seq<nat>)
    requires |f| >= 2 && Sorted(f)
    ensures FirstTree(f).Valid(f)
  {
    var T := FirstTree(f);
    assert T.Shape(f);
    assert f[0..2] == [f[0], f[1]];
    PairSum(f[0], f[1]);
    assert T.W[0..0] == [];
    assert T.Step(f, 0);
  }

  ghost function Copies(n: nat, t: nat): (s: seq<nat>)
    ensures |s| == n && forall i :: 0 <= i < n ==> s[i] == t
  {
    seq(n, _ => t)
  }

  /** The tree after merging items `a` and `b`, `k` of which are nodes. */
  ghost function Extend(T: Tree, a: nat, b: nat, k: nat): Tree
    requires |T.R| >= 1 && k <= 2
  {
    Tree(T.W + [a + b], T.B + [b], T.R + [T.R[|T.R| - 1] + k],
         T.P + Copies(k, |T.W|), T.Q + Copies(2 - k, |T.W|))
  }

  lemma StepsKept(T: Tree, f: seq<nat>, a: nat, b: nat, k: nat, u: nat)
    requires T.Valid(f) && u < |T.W| && k <= 2
    requires var T' := Extend(T, a, b, k); T'.Shape(f)
    ensures Extend(T, a, b, k).Step(f, u)
  {
    var T' := Extend(T, a, b, k);
    assert T.Step(f, u);
    T.RMono(f, u, u + 1);
    T.RMono(f, u + 1, |T.W|);
    SameStep(T, T', f, u);
  }

  lemma SameStep(T: Tree, T': Tree, f: seq<nat>, u: nat)
    requires T.Shape(f) && T'.Shape(f) && u < |T.W| && T.Step(f, u)
    requires T.W <= T'.W && T.B <= T'.B && T.R <= T'.R && T.P <= T'.P && T.Q <= T'.Q
    requires T.R[u] <= T.R[u + 1] <= |T.P| && T.R[u + 1] <= |T.W| && 0 <= T.L(u) <= T.L(u + 1) <= |T.Q|
    ensures T'.Step(f, u)
  {
    assert T'.R[u] == T.R[u] && T'.R[u + 1] == T.R[u + 1];
    assert T'.W[T.R[u]..T.R[u + 1]] == T.W[T.R[u]..T.R[u + 1]];
    assert T'.L(u) == T.L(u) && T'.L(u + 1) == T.L(u + 1);
    assert forall i :: T.R[u] <= i < T.R[u + 1] ==> T'.P[i] == T.P[i];
    assert forall j :: T.L(u) <= j < T.L(u + 1) ==> T'.Q[j] == T.Q[j];
  }

  /** What the two picks of one merge amount to. */
  ghost predicate PicksFrom(x: seq<nat>, y: seq<nat>, a: nat, b: nat, k: nat) {
    var first := TakesNode(x, y);
    && (if first then x != [] && a == x[0] else y != [] && a == y[0])
    && var x1, y1 := if first then x[1..] else x, if first then y else y[1..];
    var second := TakesNode(x1, y1);
    && (if second then x1 != [] && b == x1[0] else y1 != [] && b == y1[0])
    && k == (if first then 1 else 0) + (if second then 1 else 0)
  }

  ghost predicate Picks(T: Tree, f: seq<nat>, a: nat, b: nat, k: nat)
    requires T.Valid(f) && |T.W| >= 1
  {
    var t := |T.W|;
    T.RMono(f, t, t);
    PicksFrom(T.W[T.R[t]..], f[T.L(t)..], a, b, k)
  }

  /** All but the two lightest items are still in the queues. */
  ghost predicate Remaining(s: seq<nat>, x: seq<nat>, y: seq<nat>)
    requires |s| >= 2
  {
    (multiset(s[2..]) == multiset(x) + multiset(y)) == true
  }

  /** The two picks are the two lightest open items. */
  lemma PicksAreLightest(T: Tree, f: seq<nat>, s: seq<nat>, a: nat, b: nat, k: nat)
    requires Growing(T, f, s) && |T.W| < |f| - 1 && Picks(T, f, a, b, k)
    ensures |s| >= 2 && a == s[0] && b == s[1] && k <= 2
    ensures T.R[|T.W|] + k <= |T.W| && T.L(|T.W|) + 2 - k <= |f|
    ensures Remaining(s, T.W[T.R[|T.W|] + k..], f[T.L(|T.W|) + 2 - k..])
    ensures forall i :: T.R[|T.W|] + k <= i < |T.W| ==> b <= T.W[i]
    ensures forall j :: T.L(|T.W|) + 2 - k <= j < |f| ==> b <= f[j]
  {
    TwoLightest(s, T.W, T.R[|T.W|], f, T.L(|T.W|), a, b, k);
  }

  lemma TwoLightest(s: seq<nat>, W: seq<nat>, r: nat, f: seq<nat>, l: nat, a: nat, b: nat, k: nat)
    requires Sorted(s) && Sorted(W) && Sorted(f) && r <= |W| && l <= |f| && |W| - r + |f| - l >= 2
    requires multiset(s) == multiset(W[r..]) + multiset(f[l..]) && PicksFrom(W[r..], f[l..], a, b, k)
    ensures |s| >= 2 && a == s[0] && b == s[1] && k <= 2 && r + k <= |W| && l + 2 - k <= |f|
    ensures Remaining(s, W[r + k..], f[l + 2 - k..])
    ensures forall i :: r + k <= i < |W| ==> b <= W[i]
    ensures forall j :: l + 2 - k <= j < |f| ==> b <= f[j]
  {
    CountUnion(s, W[r..], f[l..]);
    SortedTail(W, r);
    SortedTail(f, l);
    TwoHeads(s, W[r..], f[l..], a, b, k);
    assert W[r..][k..] == W[r + k..] && f[l..][2 - k..] == f[l + 2 - k..];
    QueuesAbove(W, r + k, f, l + 2 - k, s);
  }

  lemma CountUnion(s: seq<nat>, x: seq<nat>, y: seq<nat>)
    requires multiset(s) == multiset(x) + multiset(y)
    ensures |s| == |x| + |y|
  {
    assert |multiset(s)| == |multiset(x)| + |multiset(y)|;
  }

  lemma SortedTail(s: seq<nat>, i: nat)
    requires Sorted(s) && i <= |s|
    ensures Sorted(s[i..])
  {
  }

  lemma TwoHeads(s: seq<nat>, x: seq<nat>, y: seq<nat>, a: nat, b: nat, k: nat)
    requires |s| >= 2 && Sorted(s) && Sorted(x) && Sorted(y) && multiset(s) == multiset(x) + multiset(y)
    requires PicksFrom(x, y, a, b, k)
    ensures a == s[0] && b == s[1] && k <= 2 && k <= |x| && 2 - k <= |y|
    ensures multiset(s[2..]) == multiset(x[k..]) + multiset(y[2 - k..])
  {
    HeadOfQueues(s, x, y);
    var x1, y1 := if TakesNode(x, y) then x[1..] else x, if TakesNode(x, y) then y else y[1..];
    HeadOfQueues(s[1..], x1, y1);
    assert s[1..][1..] == s[2..];
    var x2 := if TakesNode(x1, y1) then x1[1..] else x1;
    var y2 := if TakesNode(x1, y1) then y1 else y1[1..];
    assert x2 == x[k..] && y2 == y[2 - k..];
  }

  lemma OneSlice(s: seq<nat>, i: nat)
    requires i < |s|
    ensures Sum(s[i..i + 1]) == s[i]
  {
    assert s[i..i + 1] == [s[i]];
  }

  /** The children of the new node are exactly the two picks. */
  lemma PickedChildren(T: Tree, f: seq<nat>, a: nat, b: nat, k: nat)
    requires T.Valid(f) && 1 <= |T.W| && Picks(T, f, a, b, k)
    requires k <= 2 && T.R[|T.W|] + k <= |T.W| && T.L(|T.W|) + 2 - k <= |f|
    ensures 0 <= T.L(|T.W|)
    ensures var r, l := T.R[|T.W|], T.L(|T.W|);
            && Sum(T.W[r..r + k]) + Sum(f[l..l + 2 - k]) == a + b
            && (forall i :: r <= i < r + k ==> T.W[i] == a || T.W[i] == b)
            && (forall j :: l <= j < l + 2 - k ==> f[j] == a || f[j] == b)
  {
    var t := |T.W|;
    T.RMono(f, t, t);
    var r, l := T.R[t], T.L(t);
    if k == 0 {
      assert f[l..l + 2] == [a, b] && T.W[r..r] == [];
      PairSum(a, b);
    } else if k == 1 {
      OneSlice(f, l);
      OneSlice(T.W, r);
    } else {
      assert T.W[r..r + 2] == [a, b] && f[l..l] == [];
      PairSum(a, b);
    }
  }

  lemma ExtendedShape(T: Tree, f: seq<nat>, a: nat, b: nat, k: nat)
    requires T.Valid(f) && |T.W| >= 1 && k <= 2
    requires T.R[|T.W|] + k <= |T.W| && T.L(|T.W|) + 2 - k <= |f|
    ensures Extend(T, a, b, k).Shape(f)
  {
    var t := |T.W|;
    var T' := Extend(T, a, b, k);
    assert T'.R[t] == T.R[t] && T'.R[t + 1] == T.R[t] + k;
    forall v, u | 0 <= v < |T'.W| && u == v + 1
      ensures T'.R[v] <= T'.R[u] <= v && T'.R[u] <= T'.R[v] + 2
    {
      if u <= t {
        assert T.R[v] <= T.R[u] <= v && T.R[u] <= T.R[v] + 2;
      }
    }
  }

  lemma NewStep(T: Tree, f: seq<nat>, a: nat, b: nat, k: nat)
    requires T.Valid(f) && |T.W| >= 1 && Picks(T, f, a, b, k) && k <= 2
    requires T.R[|T.W|] + k <= |T.W| && T.L(|T.W|) + 2 - k <= |f|
    requires T.B[|T.W| - 1] <= a <= b && Extend(T, a, b, k).Shape(f)
    ensures Extend(T, a, b, k).Step(f, |T.W|)
  {
    var t := |T.W|;
    PickedChildren(T, f, a, b, k);
    var T' := Extend(T, a, b, k);
    var r, l := T.R[t], T.L(t);
    assert T'.R[t] == r && T'.R[t + 1] == r + k;
    assert T'.L(t) == l && T'.L(t + 1) == l + 2 - k;
    assert T'.W[r..r + k] == T.W[r..r + k];
    assert T'.B[t - 1] == T.B[t - 1];
  }

  lemma ExtendedValid(T: Tree, f: seq<nat>, s: seq<nat>, a: nat, b: nat, k: nat)
    requires Growing(T, f, s) && |T.W| < |f| - 1 && Picks(T, f, a, b, k)
    ensures k <= 2 && Extend(T, a, b, k).Valid(f)
  {
    PickBounds(T, f, s, a, b, k);
    ExtendedShape(T, f, a, b, k);
    NewStep(T, f, a, b, k);
    forall u | 0 <= u < |T.W| ensures Extend(T, a, b, k).Step(f, u) {
      StepsKept(T, f, a, b, k, u);
    }
  }

  lemma PickBounds(T: Tree, f: seq<nat>, s: seq<nat>, a: nat, b: nat, k: nat)
    requires Growing(T, f, s) && |T.W| < |f| - 1 && Picks(T, f, a, b, k)
    ensures T.B[|T.W| - 1] <= a <= b && T.W[|T.W| - 1] <= a + b
    ensures k <= 2 && T.R[|T.W|] + k <= |T.W| && T.L(|T.W|) + 2 - k <= |f|
    ensures forall i :: T.R[|T.W|] + k <= i < |T.W| ==> b <= T.W[i]
    ensures forall j :: T.L(|T.W|) + 2 - k <= j < |f| ==> b <= f[j]
  {
    PicksAreLightest(T, f, s, a, b, k);
    PickedInOrder(T, f, s, a, b, k);
  }

  lemma QueuesAbove(x: seq<nat>, r: nat, y: seq<nat>, l: nat, s: seq<nat>)
    requires r <= |x| && l <= |y| && |s| >= 2 && Sorted(s) && Remaining(s, x[r..], y[l..])
    ensures forall i :: r <= i < |x| ==> s[1] <= x[i]
    ensures forall j :: l <= j < |y| ==> s[1] <= y[j]
  {
    forall i | r <= i < |x| ensures s[1] <= x[i] {
      PartAbove(x, r, i, s, s[1], multiset(y[l..]));
    }
    forall j | l <= j < |y| ensures s[1] <= y[j] {
      PartAbove(y, l, j, s, s[1], multiset(x[r..]));
    }
  }

  lemma PickedInOrder(T: Tree, f: seq<nat>, s: seq<nat>, a: nat, b: nat, k: nat)
    requires Growing(T, f, s) && |T.W| < |f| - 1 && Picks(T, f, a, b, k) && |s| >= 2 && a == s[0] && b == s[1]
    ensures T.B[|T.W| - 1] <= a <= b && T.W[|T.W| - 1] <= a + b
  {
  }

  /** What is left in either queue is no lighter than the second lightest item. */
  lemma PartAbove(x: seq<nat>, r: nat, i: nat, s: seq<nat>, b: nat, rest: multiset<nat>)
    requires r <= i < |x| && |s| >= 2 && Sorted(s) && b == s[1]
    requires multiset(s[2..]) == multiset(x[r..]) + rest
    ensures b <= x[i]
  {
    assert x[r..][i - r] == x[i];
    assert x[i] in multiset(s[2..]);
    assert x[i] in s[2..];
  }

  lemma SnocSplit(W: seq<nat>, v: nat, r: nat)
    requires r <= |W|
    ensures multiset((W + [v])[r..]) == multiset(W[r..]) + multiset{v}
  {
    assert (W + [v])[r..] == W[r..] + [v];
  }

  lemma OrderKept(T: Tree, f: seq<nat>, s: seq<nat>, a: nat, b: nat, k: nat)
    requires Growing(T, f, s) && |T.W| < |f| - 1 && Picks(T, f, a, b, k)
    ensures k <= 2 && InOrder(Extend(T, a, b, k), f)
  {
    PickBounds(T, f, s, a, b, k);
    ExtendedValid(T, f, s, a, b, k);
    var T' := Extend(T, a, b, k);
    T'.RMono(f, |T.W| + 1, |T.W| + 1);
  }

  /** One merge keeps the invariant. */
  lemma MergeStep(T: Tree, f: seq<nat>, s: seq<nat>, a: nat, b: nat, k: nat)
    requires Growing(T, f, s) && |T.W| < |f| - 1 && Picks(T, f, a, b, k)
    ensures |s| >= 2 && k <= 2 && Growing(Extend(T, a, b, k), f, Insert(s[0] + s[1], s[2..]))
  {
    OrderKept(T, f, s, a, b, k);
    PicksAreLightest(T, f, s, a, b, k);
    OpenKept(T, f, s, k);
  }

  lemma InsertKeepsOpen(s: seq<nat>, W: seq<nat>, r: nat, y: seq<nat>)
    requires |s| >= 2 && Sorted(s) && r <= |W|
    requires multiset(s[2..]) == multiset(W[r..]) + multiset(y)
    ensures var v := s[0] + s[1];
            var s' := Insert(v, s[2..]);
            && Sorted(s') && multiset(s') == multiset((W + [v])[r..]) + multiset(y)
  {
    var v := s[0] + s[1];
    SnocSplit(W, v, r);
    SortedTail(s, 2);
    InsertSorted(v, s[2..]);
    Swapped(multiset(W[r..]), multiset(y), multiset{v});
  }

  lemma OneMerge(s: seq<nat>)
    requires |s| >= 2
    ensures HuffmanCost(s) == s[0] + s[1] + HuffmanCost(Insert(s[0] + s[1], s[2..]))
  {
  }

  lemma Swapped(a: multiset<nat>, b: multiset<nat>, c: multiset<nat>)
    ensures a + b + c == a + c + b
  {
  }

  lemma OpenKept(T: Tree, f: seq<nat>, s: seq<nat>, k: nat)
    requires Framed(T, f) && Open(T, f, s) && |s| >= 2 && k <= 2
    requires T.R[|T.W|] + k <= |T.W| && T.L(|T.W|) + 2 - k <= |f|
    requires Remaining(s, T.W[T.R[|T.W|] + k..], f[T.L(|T.W|) + 2 - k..])
    ensures Framed(Extend(T, s[0], s[1], k), f) && Open(Extend(T, s[0], s[1], k), f, Insert(s[0] + s[1], s[2..]))
  {
    var T' := Extend(T, s[0], s[1], k);
    var r, l := T.R[|T.W|] + k, T.L(|T.W|) + 2 - k;
    assert T'.L(|T'.W|) == l && T'.R[|T'.W|] == r;
    InsertKeepsOpen(s, T.W, r, f[l..]);
    CostStillKept(f, T.W, s, T'.W);
  }

  lemma CostStillKept(f: seq<nat>, W: seq<nat>, s: seq<nat>, W': seq<nat>)
    requires |s| >= 2 && CostKept(f, W, s) && W' == W + [s[0] + s[1]]
    ensures CostKept(f, W', Insert(s[0] + s[1], s[2..]))
  {
    assert Shown(f, 0);
    OneMerge(s);
    SumConcat(W, [s[0] + s[1]]);
  }

  lemma {:induction false} SumBounds(s: seq<nat>, i: nat)
    requires i < |s|
    ensures s[i] <= Sum(s)
  {
    if i > 0 {
      SumBounds(s[1..], i - 1);
    }
  }

  lemma {:induction false} SumOfPositive(s: seq<nat>)
    requires forall i :: 0 <= i < |s| ==> s[i] >= 1
    ensures |s| <= Sum(s)
  {
    if s != [] {
      SumOfPositive(s[1..]);
    }
  }

  /** No merged weight exceeds the total. */
  lemma NodeBound(T: Tree, f: seq<nat>)
    requires T.Valid(f) && |T.W| >= 1
    ensures T.W[|T.W| - 1] <= Sum(f)
  {
    var t := |T.W|;
    T.RMono(f, t, t);
    forall u | 0 <= u < t ensures T.Consumes(f, T.W, f, T.W, u) {
      assert T.Step(f, u);
    }
    T.ConsumedBefore(f, T.W, f, T.W, t);
    assert T.W[..t] == T.W;
    SumConcat(T.W[..T.R[t]], T.W[T.R[t]..]);
    assert T.W[..T.R[t]] + T.W[T.R[t]..] == T.W;
    SumConcat(f[..T.L(t)], f[T.L(t)..]);
    assert f[..T.L(t)] + f[T.L(t)..] == f;
    var open := T.W[T.R[t]..];
    SumBounds(open, |open| - 1);
  }

  /** What the array holds while the tree grows. */
  ghost predicate Overlay(a: seq<SymFreq>, n: nat, T: Tree, f: seq<nat>)
    requires |f| == n <= |a| && InOrder(T, f)
  {
    var t := |T.W|;
    && (forall i :: 0 <= i < T.R[t] ==> a[i].key == T.P[i])
    && (forall i :: T.R[t] <= i < t ==> a[i].key == T.W[i])
    && (forall j :: T.L(t) <= j < n ==> a[j].key == f[j])
  }

  ghost predicate SameSymbols(a: seq<SymFreq>, b: seq<SymFreq>, n: nat) {
    && |a| == |b| && n <= |a|
    && (forall i :: 0 <= i < n ==> a[i].sym == b[i].sym)
    && (forall i :: n <= i < |a| ==> a[i] == b[i])
  }

  ghost predicate SmallTotal(f: seq<nat>) {
    Sorted(f) && Sum(f) < 0x1_0000 && forall i :: 0 <= i < |f| ==> f[i] >= 1
  }

  /** The queues the array holds at one moment: nodes `root..next`, leaves `leaf..n`. */
  ghost predicate Queues(a: seq<SymFreq>, n: nat, next: nat, root: nat, leaf: nat, x: seq<nat>, y: seq<nat>) {
    && root <= next < leaf <= n <= |a|
    && |x| == next - root && |y| == n - leaf
    && (forall i :: root <= i < next ==> a[i].key == x[i - root])
    && (forall j :: leaf <= j < n ==> a[j].key == y[j - leaf])
  }

  /** Adds the lighter queue head to the node being made. */
  method TakeLighter(A: array<SymFreq>, n: nat, next: nat, root: nat, leaf: nat, prior: U16, ghost x: seq<nat>,
                     ghost y: seq<nat>)
    returns (node: bool)
    requires Queues(A[..], n, next, root, leaf, x, y) && (x != [] || y != []) && next < 0x1_0000
    requires prior + (if TakesNode(x, y) then x[0] else y[0]) < 0x1_0000
    modifies A
    ensures node == TakesNode(x, y)
    ensures A[next].key == prior + (if node then x[0] else y[0])
    ensures node ==> A[root].key == next
    ensures forall i :: 0 <= i < A.Length && i != next && !(node && i == root) ==> A[i] == old(A[i])
    ensures SameSymbols(A[..], old(A[..]), n)
  {
    node := leaf >= n || (root < next && A[root].key < A[leaf].key);
    if node {
      A[next] := A[next].(key := prior + A[root].key);
      A[root] := A[root].(key := next);
    } else {
      A[next] := A[next].(key := prior + A[leaf].key);
    }
  }

  lemma OverlayKept(T: Tree, f: seq<nat>, a: seq<SymFreq>, a': seq<SymFreq>, n: nat, v: nat, b: nat, k: nat)
    requires |f| == n <= |a| == |a'| && InOrder(T, f) && Overlay(a, n, T, f) && k <= 2
    requires T.R[|T.W|] + k <= |T.W| < n && T.L(|T.W|) + 2 - k <= n
    requires InOrder(Extend(T, v, b, k), f)
    requires a'[|T.W|].key == v + b
    requires forall i :: T.R[|T.W|] <= i < T.R[|T.W|] + k ==> a'[i].key == |T.W|
    requires forall i :: 0 <= i < n && i != |T.W| && !(T.R[|T.W|] <= i < T.R[|T.W|] + k) ==> a'[i] == a[i]
    ensures Overlay(a', n, Extend(T, v, b, k), f)
  {
    var t := |T.W|;
    var T' := Extend(T, v, b, k);
    assert T'.L(t + 1) == T.L(t) + 2 - k;
    assert |T.P| == T.R[t];
  }

  lemma QueuesOf(T: Tree, f: seq<nat>, a: seq<SymFreq>, n: nat)
    requires |f| == n <= |a| && InOrder(T, f) && Overlay(a, n, T, f)
    ensures Queues(a, n, |T.W|, T.R[|T.W|], T.L(|T.W|), T.W[T.R[|T.W|]..], f[T.L(|T.W|)..])
  {
    T.RMono(f, |T.W|, |T.W|);
  }

  /** The two picks of one merge, as the code makes them. */
  ghost function Value(x: seq<nat>, y: seq<nat>): nat
    requires x != [] || y != []
  {
    if TakesNode(x, y) then if x != [] then x[0] else 0 else y[0]
  }

  ghost function NodesLeft(x: seq<nat>, y: seq<nat>): seq<nat> {
    if TakesNode(x, y) && x != [] then x[1..] else x
  }

  ghost function LeavesLeft(x: seq<nat>, y: seq<nat>): seq<nat> {
    if TakesNode(x, y) then y else y[1..]
  }

  /** The merge about to happen, and why its weight fits sixteen bits. */
  lemma NextMerge(T: Tree, f: seq<nat>, s: seq<nat>) returns (a: nat, b: nat, k: nat)
    requires Growing(T, f, s) && |T.W| < |f| - 1 && SmallTotal(f)
    ensures Picks(T, f, a, b, k) && k <= 2 && a + b < 0x1_0000
    ensures |s| >= 2 && Growing(Extend(T, a, b, k), f, Insert(s[0] + s[1], s[2..]))
    ensures T.R[|T.W|] + k <= |T.W| && T.L(|T.W|) + 2 - k <= |f|
  {
    var t := |T.W|;
    T.RMono(f, t, t);
    var x, y := T.W[T.R[t]..], f[T.L(t)..];
    assert |x| + |y| == |f| - t;
    a := Value(x, y);
    var x1, y1 := NodesLeft(x, y), LeavesLeft(x, y);
    b := Value(x1, y1);
    k := (if TakesNode(x, y) then 1 else 0) + (if TakesNode(x1, y1) then 1 else 0);
    MergeStep(T, f, s, a, b, k);
    PicksAreLightest(T, f, s, a, b, k);
    NodeBound(Extend(T, a, b, k), f);
  }

  /** One turn of the merging loop. */
  method MergeOnce(A: array<SymFreq>, n: nat, next: nat, root: nat, leaf: nat,
                   ghost x: seq<nat>, ghost y: seq<nat>, ghost a: nat, ghost b: nat, ghost k: nat)
    returns (root': nat, leaf': nat)
    requires Queues(A[..], n, next, root, leaf, x, y) && next < 0x1_0000
    requires PicksFrom(x, y, a, b, k) && a + b < 0x1_0000
    modifies A
    ensures k <= 2 && root' == root + k && leaf' == leaf + 2 - k
    ensures SameSymbols(A[..], old(A[..]), n)
    ensures A[next].key == a + b
    ensures forall i :: root <= i < root + k ==> A[i].key == next
    ensures forall i :: 0 <= i < n && i != next && !(root <= i < root + k) ==> A[i] == old(A[i])
  {
    root', leaf' := root, leaf;
    var first := TakeLighter(A, n, next, root', leaf', 0, x, y);
    if first {
      root' := root' + 1;
    } else {
      leaf' := leaf' + 1;
    }
    ghost var x1, y1 := if first then x[1..] else x, if first then y else y[1..];
    var second := TakeLighter(A, n, next, root', leaf', A[next].key, x1, y1);
    if second {
      root' := root' + 1;
    } else {
      leaf' := leaf' + 1;
    }
  }

  /** Phase one: merge the two lightest items until one is left. */
  method MergeItems(A: array<SymFreq>, n: nat, ghost f: seq<nat>) returns (ghost T: Tree)
    requires 2 <= n <= A.Length && f == Keys(A[..n]) && SmallTotal(f)
    modifies A
    ensures SameSymbols(A[..], old(A[..]), n)
    ensures T.Complete(f) && Sum(T.W) == HuffmanCost(f)
    ensures forall i :: 0 <= i < n - 2 ==> A[i].key == T.P[i]
  {
    assert forall i :: 0 <= i < n ==> A[i].key == f[i];
    T := FirstTree(f);
    ghost var s := Insert(f[0] + f[1], f[2..]);
    FirstMerge(f);
    NodeBound(T, f);
    SumOfPositive(f);
    A[0] := A[0].(key := A[0].key + A[1].key);
    var root, leaf, next := 0, 2, 1;
    while next < n - 1
      invariant 1 <= next <= n - 1 && next == |T.W| && Growing(T, f, s)
      invariant root == T.R[next] && leaf == T.L(next)
      invariant Overlay(A[..], n, T, f)
      invariant SameSymbols(A[..], old(A[..]), n)
    {
      root, leaf, T, s := MergeTurn(A, n, next, root, leaf, f, T, s);
      next := next + 1;
    }
    AllMerged(T, f, s);
  }

  method MergeTurn(A: array<SymFreq>, n: nat, next: nat, root: nat, leaf: nat,
                   ghost f: seq<nat>, ghost T: Tree, ghost s: seq<nat>)
    returns (root': nat, leaf': nat, ghost T': Tree, ghost s': seq<nat>)
    requires |f| == n <= A.Length && next < n - 1 && n < 0x1_0000 && SmallTotal(f)
    requires Growing(T, f, s) && Overlay(A[..], n, T, f)
    requires next == |T.W| && root == T.R[next] && leaf == T.L(next)
    modifies A
    ensures next + 1 == |T'.W| && Growing(T', f, s')
    ensures root' == T'.R[next + 1] && leaf' == T'.L(next + 1)
    ensures SameSymbols(A[..], old(A[..]), n)
    ensures Overlay(A[..], n, T', f)
  {
    ghost var a, b, k := NextMerge(T, f, s);
    T', s' := Extend(T, a, b, k), Insert(s[0] + s[1], s[2..]);
    QueuesOf(T, f, A[..], n);
    root', leaf' := MergeOnce(A, n, next, root, leaf, T.W[root..], f[leaf..], a, b, k);
    OverlayKept(T, f, old(A[..]), A[..], n, a, b, k);
  }

  lemma AllMerged(T: Tree, f: seq<nat>, s: seq<nat>)
    requires Growing(T, f, s) && |T.W| == |f| - 1
    ensures T.Complete(f) && Sum(T.W) == HuffmanCost(f) && |T.P| == |f| - 2
  {
    T.RMono(f, |T.W|, |T.W|);
    CountUnion(s, T.W[T.R[|T.W|]..], f[T.L(|T.W|)..]);
    assert Shown(f, 0);
  }

  // ---- Second and third phase: inner depths, then leaf depths

  /** Phase two: parent links become depths, from the root down. */
  method InnerDepths(A: array<SymFreq>, n: nat, ghost f: seq<nat>, ghost T: Tree)
    requires 2 <= n <= A.Length && n == |f| < 0x1_0000 && T.Complete(f)
    requires forall i :: 0 <= i < n - 2 ==> A[i].key == T.P[i]
    modifies A
    ensures SameSymbols(A[..], old(A[..]), n)
    ensures forall i :: 0 <= i < n - 1 ==> A[i].key == T.Depth(f, i)
  {
    A[n - 2] := A[n - 2].(key := 0);
    var next: int := n - 3;
    while next >= 0
      invariant -1 <= next <= n - 3
      invariant SameSymbols(A[..], old(A[..]), n)
      invariant forall i :: 0 <= i <= next ==> A[i].key == T.P[i]
      invariant forall i :: next < i < n - 1 ==> A[i].key == T.Depth(f, i)
    {
      T.ParentOf(f, next);
      A[next] := A[next].(key := A[A[next].key].key + 1);
      next := next - 1;
    }
  }

  // Counting along non-increasing sequences.

  lemma CountSnoc(s: seq<nat>, k: nat, d: nat)
    requires k < |s|
    ensures CountOf(s[..k + 1], d) == CountOf(s[..k], d) + (if s[k] == d then 1 else 0)
  {
    var a, b := Indicator(s[..k + 1], d), Indicator(s[..k], d);
    assert a == b + [if s[k] == d then 1 else 0];
    SumConcat(b, [if s[k] == d then 1 else 0]);
  }

  lemma {:induction false} CountAbsent(s: seq<nat>, d: nat)
    requires forall i :: 0 <= i < |s| ==> s[i] != d
    ensures CountOf(s, d) == 0
  {
    if s != [] {
      var k := |s| - 1;
      CountAbsent(s[..k], d);
      CountSnoc(s, k, d);
      assert s[..k + 1] == s;
    }
  }

  ghost predicate Falling(s: seq<nat>) {
    forall i, j :: 0 <= i <= j < |s| ==> s[i] >= s[j]
  }

  /** Elements beyond `k` are below `d`, the others are not. */
  ghost predicate CutAt(s: seq<nat>, k: int, d: nat) {
    && -1 <= k < |s|
    && (forall i :: 0 <= i <= k ==> s[i] >= d)
    && (forall i :: k < i < |s| ==> s[i] < d)
  }

  lemma {:induction false} CountBelowCut(s: seq<nat>, k: int, d: nat)
    requires CutAt(s, k, d)
    ensures CountOf(s, d) == CountOf(s[..k + 1], d)
  {
    CountPrefix(s, k + 1, |s|, d);
    assert s[..|s|] == s;
  }

  lemma {:induction false} CountPrefix(s: seq<nat>, k: nat, m: nat, d: nat)
    requires k <= m <= |s| && forall i :: k <= i < m ==> s[i] != d
    ensures CountOf(s[..m], d) == CountOf(s[..k], d)
  {
    if k < m {
      CountPrefix(s, k, m - 1, d);
      CountSnoc(s, m - 1, d);
    }
  }

  /** Counts the inner nodes at depth `d`, moving `root` past them. */
  method CountLevel(A: array<SymFreq>, root: int, d: nat, ghost D: seq<nat>) returns (root': int, used: nat)
    requires |D| < A.Length && Falling(D) && CutAt(D, root, d)
    requires forall i :: 0 <= i <= root ==> A[i].key == D[i]
    ensures CutAt(D, root', d + 1) && used == CountOf(D, d) && root' + used == root
  {
    root', used := root, 0;
    CountBelowCut(D, root, d);
    while root' >= 0 && A[root'].key == d
      invariant -1 <= root' <= root && used == root - root'
      invariant used + CountOf(D[..root' + 1], d) == CountOf(D, d)
      invariant forall i :: root' < i <= root ==> D[i] == d
    {
      CountSnoc(D, root', d);
      used := used + 1;
      root' := root' - 1;
    }
    CountAbsent(D[..root' + 1], d);
  }

  /** Gives the `c` open leaves at this level their depth. */
  method FillLevel(A: array<SymFreq>, n: nat, next: int, c: nat, d: U16, ghost D': seq<nat>, ghost root: int)
    returns (next': int)
    requires n == |D'| <= A.Length && Falling(D') && CutAt(D', next, d) && c == CountOf(D', d)
    requires root + c <= next
    modifies A
    ensures next' + c == next && CutAt(D', next', d + 1)
    ensures SameSymbols(A[..], old(A[..]), n)
    ensures forall i :: next' < i <= next ==> A[i].key == D'[i]
    ensures forall i :: 0 <= i < A.Length && !(next' < i <= next) ==> A[i] == old(A[i])
  {
    next' := next;
    CountBelowCut(D', next, d);
    var left := c;
    while left > 0
      invariant -1 <= next' <= next && left <= c && next' == next - (c - left)
      invariant left == CountOf(D'[..next' + 1], d)
      invariant SameSymbols(A[..], old(A[..]), n)
      invariant forall i :: next' < i <= next ==> A[i].key == d == D'[i]
      invariant forall i :: 0 <= i < A.Length && !(next' < i <= next) ==> A[i] == old(A[i])
    {
      if next' < 0 || D'[next'] != d {
        CountAbsent(D'[..next' + 1], d);
      }
      CountSnoc(D', next', d);
      A[next'] := A[next'].(key := d);
      next' := next' - 1;
      left := left - 1;
    }
    forall i | 0 <= i <= next' ensures D'[i] >= d + 1 {
      if D'[i] == d {
        CountAtLeast(D'[..next' + 1], i, d);
      }
    }
  }

  /** The same, without touching the inner nodes that are still to be counted. */
  method FillNext(A: array<SymFreq>, n: nat, next: int, c: nat, d: U16, ghost D: seq<nat>, ghost D': seq<nat>,
                  ghost root: int)
    returns (next': int)
    requires n == |D'| <= A.Length && Falling(D') && CutAt(D', next, d) && c == CountOf(D', d)
    requires root + c <= next && root < |D| < n
    requires forall i :: 0 <= i <= root ==> A[i].key == D[i]
    requires forall j :: next < j < n ==> A[j].key == D'[j]
    modifies A
    ensures next' + c == next && CutAt(D', next', d + 1)
    ensures SameSymbols(A[..], old(A[..]), n)
    ensures forall i :: 0 <= i <= root ==> A[i].key == D[i]
    ensures forall j :: next' < j < n ==> A[j].key == D'[j]
  {
    next' := FillLevel(A, n, next, c, d, D', root);
  }

  lemma {:induction false} CountAtLeast(s: seq<nat>, i: nat, d: nat)
    requires i < |s| && s[i] == d
    ensures CountOf(s, d) >= 1
  {
    SumBounds(Indicator(s, d), i);
  }

  /** Phase three: level by level, the slots not used by inner nodes are leaves. */
  method LeafDepths(A: array<SymFreq>, n: nat, ghost f: seq<nat>, ghost T: Tree)
    requires 2 <= n <= A.Length && n == |f| < 0x1_0000 && T.Complete(f)
    requires forall i :: 0 <= i < n - 1 ==> A[i].key == T.Depth(f, i)
    modifies A
    ensures SameSymbols(A[..], old(A[..]), n)
    ensures Keys(A[..n]) == T.LeafDepths(f)
  {
    ghost var D, D' := T.Depths(f), T.LeafDepths(f);
    TreeLevels(T, f);
    var avbl, dpth, root: int, next: int := 1, 0, n - 2, n - 1;
    while avbl > 0
      invariant CutAt(D, root, dpth) && CutAt(D', next, dpth)
      invariant next == root + avbl
      invariant avbl == CountOf(D, dpth) + CountOf(D', dpth)
      invariant SameSymbols(A[..], old(A[..]), n)
      invariant forall i :: 0 <= i <= root ==> A[i].key == D[i]
      invariant forall j :: next < j < n ==> A[j].key == D'[j]
      decreases root + next + 2
    {
      DepthInRange(T, f, dpth, root, next);
      LevelSizes(T, f, dpth);
      var used;
      root, used := CountLevel(A, root, dpth, D);
      next := FillNext(A, n, next, avbl - used, dpth, D, D', root);
      avbl := 2 * used;
      dpth := dpth + 1;
    }
    NothingLeft(T, f, dpth, root, next);
  }

  lemma TreeLevels(T: Tree, f: seq<nat>)
    requires T.Complete(f)
    ensures Falling(T.Depths(f)) && Falling(T.LeafDepths(f))
    ensures CutAt(T.Depths(f), |f| - 2, 0) && CutAt(T.LeafDepths(f), |f| - 1, 0)
    ensures CountOf(T.Depths(f), 0) + CountOf(T.LeafDepths(f), 0) == 1
  {
    var D, D' := T.Depths(f), T.LeafDepths(f);
    forall i, j | 0 <= i <= j < |D| ensures D[i] >= D[j] {
      T.DepthsOrdered(f, i, j);
    }
    forall i, j | 0 <= i <= j < |D'| ensures D'[i] >= D'[j] {
      T.LeafDepthsOrdered(f, i, j);
    }
    CountAbsent(D', 0);
    var k := |D| - 1;
    forall i | 0 <= i < k ensures D[i] != 0 {
      T.ParentOf(f, i);
    }
    CountAbsent(D[..k], 0);
    CountSnoc(D, k, 0);
    assert D[..k + 1] == D;
  }

  /** While a level is open, some leaf is at least that deep. */
  lemma DepthInRange(T: Tree, f: seq<nat>, d: nat, root: int, next: int)
    requires T.Complete(f) && |f| < 0x1_0000
    requires CutAt(T.Depths(f), root, d) && CutAt(T.LeafDepths(f), next, d) && next > root
    ensures d < |f|
  {
    assert T.LeafDepths(f)[next] >= d;
  }

  /** An exhausted level means there is nothing deeper. */
  lemma NothingLeft(T: Tree, f: seq<nat>, d: nat, root: int, next: int)
    requires T.Complete(f) && next == root
    requires CutAt(T.Depths(f), root, d) && CutAt(T.LeafDepths(f), next, d)
    requires CountOf(T.Depths(f), d) + CountOf(T.LeafDepths(f), d) == 0
    ensures next == -1
  {
    var D := T.Depths(f);
    if root >= 0 {
      if root < |T.W| - 1 {
        T.ParentOf(f, root);
        assert D[T.P[root]] < d;
      }
      assert D[root] == d;
      CountAtLeast(D, root, d);
    }
  }

  // ---- The whole routine

  /** Lengths that no prefix code for these frequencies can improve on. */
  ghost predicate MinimumRedundancy(f: seq<nat>, ls: seq<nat>) {
    && |ls| == |f|
    && Falling(ls)
    && (forall i :: 0 <= i < |ls| ==> 1 <= ls[i] <= 22)
    && Kraft(ls, 22) == Pow2(22)
    && Cost(f, ls) == HuffmanCost(f)
  }

  /** A code word of length `l` belongs to at most the Fib(l + 1)-th part of the total. */
  ghost predicate LongIsRare(f: seq<nat>, ls: seq<nat>) {
    |ls| == |f| && forall i :: 0 <= i < |f| ==> f[i] * Fib(ls[i] + 1) <= Sum(f)
  }

  /** `tdefl_calculate_minimum_redundancy` */
  method CalculateMinimumRedundancy(A: array<SymFreq>, n: nat)
    requires n <= A.Length && SmallTotal(Keys(A[..n]))
    modifies A
    ensures SameSymbols(A[..], old(A[..]), n)
    ensures n == 1 ==> A[0].key == 1
    ensures n >= 2 ==> MinimumRedundancy(old(Keys(A[..n])), Keys(A[..n])) && LongIsRare(old(Keys(A[..n])), Keys(A[..n]))
  {
    if n == 0 {
      return;
    } else if n == 1 {
      A[0] := A[0].(key := 1);
      return;
    }
    ghost var f := Keys(A[..n]);
    SumOfPositive(f);
    ghost var T := MergeItems(A, n, f);
    InnerDepths(A, n, f, T);
    LeafDepths(A, n, f, T);
    TreeIsMinimal(T, f);
  }

  lemma TreeIsMinimal(T: Tree, f: seq<nat>)
    requires T.Complete(f) && SmallTotal(f) && Sum(T.W) == HuffmanCost(f)
    ensures MinimumRedundancy(f, T.LeafDepths(f)) && LongIsRare(f, T.LeafDepths(f))
  {
    var ls := T.LeafDepths(f);
    forall j | 0 <= j < |f| ensures f[j] * Fib(ls[j] + 1) <= Sum(f) {
      LeafShare(T, f, j);
    }
    TreeLevels(T, f);
    forall j | 0 <= j < |f| ensures 1 <= ls[j] <= 22 {
      DepthAtMost22(T, f, j);
    }
    TreeKraft(T, f, 22);
    TreeCost(T, f);
  }

  /** No prefix code whatever has a smaller total. */
  lemma NothingCheaper(f: seq<nat>, ls: seq<nat>, codes: seq<seq<bool>>, L: nat)
    requires |f| == |codes| >= 1 && Sorted(f) && MinimumRedundancy(f, ls)
    requires PrefixFree(codes) && AllAtMost(Lengths(codes), L)
    ensures Cost(f, ls) <= Cost(f, Lengths(codes))
  {
    NoPrefixCodeIsCheaper(f, codes, L);
  }
}
