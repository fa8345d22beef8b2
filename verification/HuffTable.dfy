/**
 One Huffman table of the compressor: symbol counts in, code lengths and
 bit-reversed canonical codes out.
 */
module HuffTable {
  import opened Bits
  import opened OptimalCode
  import opened MergeTree
  import opened MinRedundancy
  import opened RadixSort
  import opened Canonical
  import Limiter
  import LimitCost

  const MAX_SYMBOLS := 288

  // ---- The symbols that occur

  /** The symbols with a nonzero count, in symbol order. */
  function Used(count: seq<U16>): (r: seq<SymFreq>)
    requires |count| <= MAX_SYMBOLS
    ensures |r| <= |count|
  {
    if count == [] then [] else
      var i := |count| - 1;
      Used(count[..i]) + (if count[i] != 0 then [SymFreq(count[i], i)] else [])
  }

  ghost predicate DistinctSyms(s: seq<SymFreq>) {
    forall i, j :: 0 <= i < j < |s| ==> s[i].sym != s[j].sym
  }

  /** `s` lists every symbol with a nonzero count once, with that count as key. */
  ghost predicate Lists(s: seq<SymFreq>, count: seq<U16>) {
    && DistinctSyms(s)
    && (forall i :: 0 <= i < |s| ==> s[i].sym < |count| && s[i].key == count[s[i].sym] != 0)
    && (forall c :: 0 <= c < |count| && count[c] != 0 ==> exists i :: 0 <= i < |s| && s[i].sym == c)
  }

  lemma UsedLists(count: seq<U16>)
    requires |count| <= MAX_SYMBOLS
    ensures Lists(Used(count), count)
  {
    UsedOnly(count);
    forall c | 0 <= c < |count| && count[c] != 0
      ensures exists k :: 0 <= k < |Used(count)| && Used(count)[k].sym == c
    {
      var k := UsedHas(count, c);
    }
  }

  lemma {:induction false} UsedOnly(count: seq<U16>)
    requires |count| <= MAX_SYMBOLS
    ensures DistinctSyms(Used(count))
    ensures forall k :: 0 <= k < |Used(count)| ==>
              Used(count)[k].sym < |count| && Used(count)[k].key == count[Used(count)[k].sym] != 0
  {
    if count != [] {
      var i := |count| - 1;
      var u, s := Used(count[..i]), Used(count);
      UsedOnly(count[..i]);
      forall k | 0 <= k < |s| ensures s[k].sym < |count| && s[k].key == count[s[k].sym] != 0 {
        assert k < |u| ==> s[k] == u[k];
      }
    }
  }

  lemma {:induction false} UsedHas(count: seq<U16>, c: nat) returns (k: nat)
    requires c < |count| <= MAX_SYMBOLS && count[c] != 0
    ensures k < |Used(count)| && Used(count)[k].sym == c
  {
    var i := |count| - 1;
    if c < i {
      k := UsedHas(count[..i], c);
      assert Used(count)[k] == Used(count[..i])[k];
    } else {
      k := |Used(count)| - 1;
    }
  }

  lemma {:induction false} UsedSum(count: seq<U16>)
    requires |count| <= MAX_SYMBOLS
    ensures Sum(Keys(Used(count))) == Sum(count)
  {
    if count != [] {
      var i := |count| - 1;
      UsedSum(count[..i]);
      assert count == count[..i] + [count[i]];
      SumConcat(count[..i], [count[i]]);
      var last := if count[i] != 0 then [SymFreq(count[i], i)] else [];
      assert Keys(Used(count)) == Keys(Used(count[..i])) + Keys(last);
      SumConcat(Keys(Used(count[..i])), Keys(last));
      if count[i] != 0 {
        assert Keys(last) == [count[i]];
      }
    }
  }

  lemma RemoveAt<T>(b: seq<T>, i: nat)
    requires i < |b|
    ensures multiset(b) == multiset(b[..i] + b[i + 1..]) + multiset{b[i]}
  {
    assert b == b[..i] + ([b[i]] + b[i + 1..]);
  }

  lemma SumRemoveAt(b: seq<SymFreq>, i: nat)
    requires i < |b|
    ensures Sum(Keys(b)) == Sum(Keys(b[..i] + b[i + 1..])) + b[i].key
  {
    var x := b[i].key;
    var lo, hi := Keys(b[..i]), Keys(b[i + 1..]);
    assert Keys(b) == lo + ([x] + hi);
    assert Keys(b[..i] + b[i + 1..]) == lo + hi;
    SumConcat(lo, [x] + hi);
    SumConcat([x], hi);
    SumConcat(lo, hi);
  }

  lemma {:induction false} SumOfPermutation(a: seq<SymFreq>, b: seq<SymFreq>)
    requires multiset(a) == multiset(b)
    ensures Sum(Keys(a)) == Sum(Keys(b))
  {
    assert |multiset(a)| == |a| && |multiset(b)| == |b|;
    if a != [] {
      var i := FindIn(a, b);
      SumRemoveAt(a, 0);
      SumRemoveAt(b, i);
      assert a[..0] + a[1..] == a[1..];
      SumOfPermutation(a[1..], b[..i] + b[i + 1..]);
    }
  }

  lemma FindIn(a: seq<SymFreq>, b: seq<SymFreq>) returns (i: nat)
    requires multiset(a) == multiset(b) && a != []
    ensures i < |b| && b[i] == a[0] && multiset(b[..i] + b[i + 1..]) == multiset(a[1..])
  {
    assert a == [a[0]] + a[1..];
    assert a[0] in multiset(b);
    i :| 0 <= i < |b| && b[i] == a[0];
    RemoveAt(b, i);
    assert multiset(b[..i] + b[i + 1..]) == multiset(b) - multiset{a[0]};
    assert multiset(a[1..]) == multiset(a) - multiset{a[0]};
  }

  lemma PermutedLists(s: seq<SymFreq>, t: seq<SymFreq>, count: seq<U16>)
    requires Lists(s, count) && multiset(s) == multiset(t)
    ensures Lists(t, count)
  {
    forall i | 0 <= i < |t| ensures t[i] in s {
      assert t[i] in multiset(s);
    }
    forall i, j | 0 <= i < j < |t| ensures t[i].sym != t[j].sym {
      if t[i].sym == t[j].sym {
        TwiceInMultiset(t, i, j);
        OnceInMultiset(s, t[i]);
      }
    }
    forall c | 0 <= c < |count| && count[c] != 0
      ensures exists i :: 0 <= i < |t| && t[i].sym == c
    {
      var k :| 0 <= k < |s| && s[k].sym == c;
      assert s[k] in multiset(t);
      var i :| 0 <= i < |t| && t[i] == s[k];
    }
  }

  lemma TwiceInMultiset(t: seq<SymFreq>, i: nat, j: nat)
    requires i < j < |t|
    ensures t[i] == t[j] ==> multiset(t)[t[i]] >= 2
  {
    assert t == t[..i] + ([t[i]] + (t[i + 1..j] + ([t[j]] + t[j + 1..])));
  }

  lemma {:induction false} OnceInMultiset(s: seq<SymFreq>, x: SymFreq)
    requires DistinctSyms(s)
    ensures multiset(s)[x] <= 1
  {
    if s != [] {
      var k := |s| - 1;
      assert s == s[..k] + [s[k]];
      OnceInMultiset(s[..k], x);
      if x == s[k] {
        assert x !in s[..k];
        assert multiset(s[..k])[x] == 0;
      }
    }
  }

  // ---- Counting lengths

  lemma {:induction false} CountUpdate(lens: seq<nat>, n: nat, k: nat, v: nat, l: nat)
    requires k < |lens| && n <= |lens|
    ensures k < n ==> (CountUpTo(lens[k := v], n, l) + (if lens[k] == l then 1 else 0)
                       == CountUpTo(lens, n, l) + (if v == l then 1 else 0))
    ensures n <= k ==> CountUpTo(lens[k := v], n, l) == CountUpTo(lens, n, l)
  {
    if n > 0 {
      CountUpdate(lens, n - 1, k, v, l);
    }
  }

  /** Filled levels of a code are the weight of its length counts. */
  lemma {:induction false} FilledIsWeight(lens: seq<nat>, num: seq<int>, l: nat)
    requires l < |num| && forall k :: 1 <= k <= l ==> num[k] == Count(lens, k)
    ensures Filled(lens, l) == Limiter.Weight(num, l, l)
  {
    if l > 0 {
      FilledIsWeight(lens, num, l - 1);
      Limiter.WeightRescale(num, l - 1, l, l - 1);
      assert Pow2(l - l) == 1 && Pow2(l - (l - 1)) == 2 * Pow2(0);
    }
  }

  /** Levels without code words double the filled part. */
  lemma {:induction false} FilledBeyond(lens: seq<nat>, l: nat, m: nat)
    requires 1 <= l <= m && forall k :: l < k <= m ==> Count(lens, k) == 0
    ensures Filled(lens, m) == Filled(lens, l) * Pow2(m - l)
    decreases m
  {
    if l < m {
      FilledBeyond(lens, l, m - 1);
      assert Pow2(m - l) == 2 * Pow2(m - 1 - l);
      MulDouble(Filled(lens, l), Pow2(m - 1 - l));
    }
  }

  lemma {:induction false} CountNone(lens: seq<nat>, n: nat, l: nat)
    requires n <= |lens| && forall i :: 0 <= i < n ==> lens[i] != l
    ensures CountUpTo(lens, n, l) == 0
  {
    if n > 0 {
      CountNone(lens, n - 1, l);
    }
  }

  /** Complete length counts make a full code. */
  lemma CompleteIsFull(lens: seq<nat>, num: seq<int>, n: nat, limit: nat)
    requires 1 <= limit <= MAX_CODE_SIZE && Limiter.CompleteCounts(num, n, limit)
    requires forall i :: 0 <= i < |lens| ==> lens[i] <= limit
    requires forall k :: 1 <= k <= limit ==> num[k] == Count(lens, k)
    ensures Full(lens)
  {
    FilledIsWeight(lens, num, limit);
    forall k | limit < k <= MAX_CODE_SIZE ensures Count(lens, k) == 0 {
      CountNone(lens, |lens|, k);
    }
    FilledBeyond(lens, limit, MAX_CODE_SIZE);
    Pow2Add(limit, MAX_CODE_SIZE - limit);
  }

  /** A single code word of length one is a prefix code, though not a full one. */
  lemma SingleIsPrefixable(lens: seq<nat>)
    requires Count(lens, 1) <= 1 && SizesFit(lens)
    requires forall i :: 0 <= i < |lens| ==> lens[i] <= 1
    ensures Prefixable(lens)
  {
    forall k | 1 < k <= MAX_CODE_SIZE ensures Count(lens, k) == 0 {
      CountNone(lens, |lens|, k);
    }
    FilledBeyond(lens, 1, MAX_CODE_SIZE);
    Bits.MulMono(Pow2(MAX_CODE_SIZE - 1), Filled(lens, 1), 1);
    assert Pow2(MAX_CODE_SIZE) == 2 * Pow2(MAX_CODE_SIZE - 1);
  }

  // ---- What the table promises

  /** Lengths fit for the counts: exactly the used symbols, the frequent ones short. */
  ghost predicate GoodLengths(count: seq<U16>, sizes: seq<nat>, limit: nat) {
    && |count| == |sizes| <= MAX_SYMBOLS
    && (forall i :: 0 <= i < |sizes| ==> (sizes[i] != 0 <==> count[i] != 0) && sizes[i] <= limit <= MAX_CODE_SIZE)
    && (forall i, j :: 0 <= i < |sizes| && 0 <= j < |sizes| && 0 < count[i] < count[j] ==> sizes[i] >= sizes[j])
    && (|Used(count)| >= 2 ==> Full(sizes))
    && (|Used(count)| <= 1 ==> forall i :: 0 <= i < |sizes| ==> sizes[i] <= 1)
    && Prefixable(sizes)
  }

  /** The stored codes are the canonical ones, least significant bit first. */
  ghost predicate StoredCodes(sizes: seq<nat>, codes: seq<U16>) {
    && |sizes| <= |codes|
    && forall i :: 0 <= i < |sizes| && sizes[i] != 0 ==> StoredAt(sizes, codes, i)
  }

  ghost predicate StoredAt(sizes: seq<nat>, codes: seq<U16>, i: nat)
    requires i < |sizes| <= |codes|
  {
    codes[i] < Pow2(sizes[i]) && ToBits(codes[i], sizes[i]) == CodeBits(sizes, i)
  }

  // ---- Lengths by position in the sorted list

  function SizesAt(t: seq<SymFreq>, sizes: seq<nat>): (r: seq<nat>)
    requires forall k :: 0 <= k < |t| ==> t[k].sym < |sizes|
    ensures |r| == |t| && forall k :: 0 <= k < |t| ==> r[k] == sizes[t[k].sym]
  {
    seq(|t|, k requires 0 <= k < |t| => sizes[t[k].sym])
  }

  lemma {:induction false} CountIsAtLeastOne(s: seq<nat>, i: nat)
    requires i < |s|
    ensures Count(s, s[i]) >= 1
  {
    CountMono(s, 0, i, s[i]);
    CountMono(s, i, |s|, s[i]);
  }

  /** A non-increasing list is determined by how often each value occurs. */
  lemma {:induction false} FallingUnique(s: seq<nat>, t: seq<nat>)
    requires |s| == |t| && Falling(s) && Falling(t)
    requires forall l :: Count(s, l) == Count(t, l)
    ensures s == t
  {
    if s != [] {
      var k := |s| - 1;
      if s[k] != t[k] {
        CountIsAtLeastOne(s, k);
        CountIsAtLeastOne(t, k);
        assert Count(s, s[k]) == Count(t, s[k]) && Count(s, t[k]) == Count(t, t[k]);
        CountNone(if s[k] < t[k] then t else s, |s|, if s[k] < t[k] then s[k] else t[k]);
      }
      forall l ensures Count(s[..k], l) == Count(t[..k], l) {
        CountOfPrefix(s[..k], s, k, l);
        CountOfPrefix(t[..k], t, k, l);
        assert Count(s, l) == Count(t, l);
      }
      FallingUnique(s[..k], t[..k]);
      assert s == s[..k] + [s[k]] && t == t[..k] + [t[k]];
    }
  }

  // ---- Steps of the table builder

  /** Length counts of the sorted keys. */
  method CountLengths(syms: array<SymFreq>, n: nat) returns (num: array<int>)
    requires n <= syms.Length
    requires forall i :: 0 <= i < n ==> 1 <= syms[i].key <= Limiter.MAX_SUPPORTED
    ensures fresh(num) && num.Length == Limiter.MAX_SUPPORTED + 1
    ensures forall l :: 0 <= l < num.Length ==> num[l] == Count(Keys(syms[..n]), l)
    ensures Limiter.NonNegative(num[..]) && Limiter.Total(num[..], Limiter.MAX_SUPPORTED) == n
    ensures AllAtMost(Keys(syms[..n]), Limiter.MAX_SUPPORTED)
    ensures Limiter.Weight(num[..], Limiter.MAX_SUPPORTED, Limiter.MAX_SUPPORTED) ==
        Kraft(Keys(syms[..n]), Limiter.MAX_SUPPORTED)
  {
    var top := Limiter.MAX_SUPPORTED;
    num := new int[top + 1](_ => 0);
    ghost var ks := Keys(syms[..n]);
    NothingCounted(num[..], ks);
    var i := 0;
    while i < n
      invariant 0 <= i <= n && ks == Keys(syms[..n]) && Counted(num[..], ks, i)
    {
      CountOne(num[..], ks, i);
      ghost var before := num[..];
      var l := syms[i].key;
      num[l] := num[l] + 1;
      assert num[..] == before[l := before[l] + 1];
      i := i + 1;
    }
    assert ks[..n] == ks;
  }

  /** `num` counts the first `i` lengths. */
  ghost predicate Counted(num: seq<int>, ks: seq<nat>, i: nat) {
    var top := Limiter.MAX_SUPPORTED;
    && |num| == top + 1 && i <= |ks|
    && (forall l :: 0 <= l < |num| ==> num[l] == CountUpTo(ks, i, l))
    && Limiter.NonNegative(num) && Limiter.Total(num, top) == i
    && AllAtMost(ks[..i], top)
    && Limiter.Weight(num, top, top) == Kraft(ks[..i], top)
  }

  lemma NothingCounted(num: seq<int>, ks: seq<nat>)
    requires |num| == Limiter.MAX_SUPPORTED + 1 && forall l :: 0 <= l < |num| ==> num[l] == 0
    ensures Counted(num, ks, 0)
  {
    Limiter.WeightZero(num, Limiter.MAX_SUPPORTED, Limiter.MAX_SUPPORTED);
  }

  lemma CountOne(num: seq<int>, ks: seq<nat>, i: nat)
    requires i < |ks| && 1 <= ks[i] <= Limiter.MAX_SUPPORTED && Counted(num, ks, i)
    ensures Counted(num[ks[i] := num[ks[i]] + 1], ks, i + 1)
  {
    Limiter.TotalUpdate(num, ks[i], num[ks[i]] + 1, Limiter.MAX_SUPPORTED);
    WeighOne(num, ks[i], Limiter.MAX_SUPPORTED);
    KraftSnoc(ks, i, Limiter.MAX_SUPPORTED);
  }

  lemma WeighOne(num: seq<int>, l: nat, top: nat)
    requires 1 <= l <= top < |num|
    ensures Limiter.Weight(num[l := num[l] + 1], top, top) == Limiter.Weight(num, top, top) + Pow2(top - l)
  {
    Limiter.WeightUpdate(num, top, l, num[l] + 1, top);
  }

  lemma KraftSnoc(s: seq<nat>, i: nat, L: nat)
    requires i < |s| && AllAtMost(s[..i], L) && s[i] <= L
    ensures AllAtMost(s[..i + 1], L) && Kraft(s[..i + 1], L) == Kraft(s[..i], L) + Pow2(L - s[i])
  {
    assert s[..i + 1] == s[..i] + [s[i]];
    KraftConcat(s[..i], [s[i]], L);
  }

  /** Positions `j..` of the sorted list have lengths up to `i`, non-increasing. */
  ghost predicate ListAssigned(t: seq<SymFreq>, sizes: seq<nat>, j: nat, i: nat) {
    && j <= |t|
    && (forall k :: 0 <= k < |t| ==> t[k].sym < |sizes|)
    && Falling(SizesAt(t, sizes)[j..])
    && (forall k :: j <= k < |t| ==> 1 <= sizes[t[k].sym] <= i)
    && (forall c :: 0 <= c < |sizes| && sizes[c] != 0 ==> Listed(t, j, c))
  }

  ghost predicate Listed(t: seq<SymFreq>, j: nat, c: nat) {
    exists k :: j <= k < |t| && t[k].sym == c
  }

  /** Levels below `i` are handed out completely, `given` words of level `i`. */
  ghost predicate CountsAssigned(sizes: seq<nat>, num: seq<int>, i: nat, given: int) {
    && 1 <= i < |num|
    && (forall l :: 1 <= l < i ==> Count(sizes, l) == num[l])
    && Count(sizes, i) == given
  }

  ghost predicate Assigned(t: seq<SymFreq>, sizes: seq<nat>, num: seq<int>, j: nat, i: nat, given: int) {
    ListAssigned(t, sizes, j, i) && CountsAssigned(sizes, num, i, given)
  }

  lemma AssignOne(t: seq<SymFreq>, sizes: seq<nat>, num: seq<int>, j: nat, i: nat, given: int)
    requires DistinctSyms(t) && Assigned(t, sizes, num, j, i, given) && j > 0
    ensures Assigned(t, sizes[t[j - 1].sym := i], num, j - 1, i, given + 1)
  {
    var c := t[j - 1].sym;
    NotYetAssigned(t, sizes, j, i);
    AssignCounts(sizes, c, i);
    AssignInList(t, sizes, j, i);
  }

  lemma StillFalling(t: seq<SymFreq>, sizes: seq<nat>, j: nat, i: nat)
    requires DistinctSyms(t) && 0 < j <= |t|
    requires forall k :: 0 <= k < |t| ==> t[k].sym < |sizes|
    requires Falling(SizesAt(t, sizes)[j..]) && forall k :: j <= k < |t| ==> 1 <= sizes[t[k].sym] <= i
    ensures var sizes' := sizes[t[j - 1].sym := i];
            && Falling(SizesAt(t, sizes')[j - 1..])
            && forall k :: j <= k < |t| ==> sizes'[t[k].sym] == sizes[t[k].sym]
  {
    var sizes' := sizes[t[j - 1].sym := i];
    assert forall k :: j <= k < |t| ==> t[k].sym != t[j - 1].sym;
    var a := SizesAt(t, sizes)[j..];
    assert SizesAt(t, sizes')[j - 1..] == [i] + a;
    FallingCons(i, a);
  }

  lemma NotYetAssigned(t: seq<SymFreq>, sizes: seq<nat>, j: nat, i: nat)
    requires DistinctSyms(t) && ListAssigned(t, sizes, j, i) && j > 0
    ensures sizes[t[j - 1].sym] == 0
  {
    assert !Listed(t, j, t[j - 1].sym);
  }

  lemma AssignInList(t: seq<SymFreq>, sizes: seq<nat>, j: nat, i: nat)
    requires DistinctSyms(t) && ListAssigned(t, sizes, j, i) && j > 0 && i >= 1
    ensures ListAssigned(t, sizes[t[j - 1].sym := i], j - 1, i)
  {
    var c := t[j - 1].sym;
    var sizes' := sizes[c := i];
    StillFalling(t, sizes, j, i);
    forall d | 0 <= d < |sizes'| && sizes'[d] != 0 ensures Listed(t, j - 1, d) {
      if d != c {
        assert Listed(t, j, d);
      }
    }
  }

  lemma AssignCounts(sizes: seq<nat>, c: nat, i: nat)
    requires c < |sizes| && sizes[c] == 0 && i >= 1
    ensures forall l :: 1 <= l <= i ==> Count(sizes[c := i], l) == Count(sizes, l) + (if l == i then 1 else 0)
  {
    forall l | 1 <= l <= i ensures Count(sizes[c := i], l) == Count(sizes, l) + (if l == i then 1 else 0) {
      CountUpdate(sizes, |sizes|, c, i, l);
    }
  }

  lemma FallingCons(i: nat, a: seq<nat>)
    requires Falling(a) && forall x :: 0 <= x < |a| ==> a[x] <= i
    ensures Falling([i] + a)
  {
  }

  lemma NextLevel(t: seq<SymFreq>, sizes: seq<nat>, num: seq<int>, j: nat, i: nat)
    requires i + 1 < |num| && num[i] >= 0 && Assigned(t, sizes, num, j, i, num[i])
    ensures Assigned(t, sizes, num, j, i + 1, 0)
  {
    forall c | 0 <= c < |sizes| ensures sizes[c] != i + 1 {
      if sizes[c] != 0 {
        assert Listed(t, j, c);
      }
    }
    CountNone(sizes, |sizes|, i + 1);
  }

  /** Hands out length `i` to the next `num[i]` positions from the end. */
  method AssignLevel(syms: array<SymFreq>, n: nat, ghost num: seq<int>, c: nat, i: nat, tableLen: nat,
                     sizes: array<nat>, j0: nat) returns (j: nat)
    requires n <= syms.Length && tableLen <= sizes.Length && DistinctSyms(syms[..n])
    requires Assigned(syms[..n], sizes[..tableLen], num, j0, i, 0) && c <= j0
    modifies sizes
    ensures j + c == j0
    ensures forall c :: tableLen <= c < sizes.Length ==> sizes[c] == old(sizes[c])
    ensures Assigned(syms[..n], sizes[..tableLen], num, j, i, c)
  {
    j := j0;
    var l := c;
    while l > 0
      invariant 0 <= l <= c && j + (c - l) == j0
      invariant Assigned(syms[..n], sizes[..tableLen], num, j, i, c - l)
      invariant forall c :: tableLen <= c < sizes.Length ==> sizes[c] == old(sizes[c])
    {
      AssignOne(syms[..n], sizes[..tableLen], num, j, i, c - l);
      j := j - 1;
      SetSize(syms, n, j, i, tableLen, sizes);
      l := l - 1;
    }
  }

  method SetSize(syms: array<SymFreq>, n: nat, j: nat, i: nat, tableLen: nat, sizes: array<nat>)
    requires j < n <= syms.Length && syms[j].sym < tableLen <= sizes.Length
    modifies sizes
    ensures sizes[..tableLen] == old(sizes[..tableLen])[syms[..n][j].sym := i]
    ensures forall c :: tableLen <= c < sizes.Length ==> sizes[c] == old(sizes[c])
  {
    sizes[syms[j].sym] := i;
  }

  /** Hands out lengths: short ones to the end of the sorted list. */
  method AssignSizes(syms: array<SymFreq>, n: nat, num: array<int>, limit: nat, tableLen: nat, sizes: array<nat>,
                     ghost t: seq<SymFreq>, ghost nm: seq<int>)
    requires n <= syms.Length && 1 <= limit < num.Length - 1 && tableLen <= sizes.Length
    requires t == syms[..n] && nm == num[..]
    requires Limiter.NonNegative(nm) && Limiter.Total(nm, limit) == n
    requires DistinctSyms(t) && forall k :: 0 <= k < |t| ==> t[k].sym < tableLen
    requires forall c :: 0 <= c < sizes.Length ==> sizes[c] == 0
    modifies sizes
    ensures forall c :: tableLen <= c < sizes.Length ==> sizes[c] == 0
    ensures Assigned(t, sizes[..tableLen], nm, 0, limit, nm[limit])
  {
    NothingAssigned(t, sizes[..tableLen], nm);
    LevelFits(nm, 1, limit, n, n);
    var j: nat := AssignLevel(syms, n, nm, num[1], 1, tableLen, sizes, n);
    var i: nat := 1;
    while i < limit
      invariant 1 <= i <= limit && j + Limiter.Total(nm, i) == n && t == syms[..n] && nm == num[..]
      invariant Assigned(t, sizes[..tableLen], nm, j, i, nm[i])
      invariant forall c :: tableLen <= c < sizes.Length ==> sizes[c] == 0
    {
      j := AssignNext(syms, n, nm, num[i + 1], i, limit, tableLen, sizes, j);
      i := i + 1;
    }
  }

  method AssignNext(syms: array<SymFreq>, n: nat, ghost num: seq<int>, c: int, i: nat, limit: nat, tableLen: nat,
                    sizes: array<nat>, j0: nat) returns (j: nat)
    requires n <= syms.Length && tableLen <= sizes.Length && DistinctSyms(syms[..n])
    requires 1 <= i < limit < |num| && Limiter.NonNegative(num) && Limiter.Total(num, limit) == n
        && j0 + Limiter.Total(num, i) == n
    requires Assigned(syms[..n], sizes[..tableLen], num, j0, i, num[i]) && c == num[i + 1]
    modifies sizes
    ensures j + Limiter.Total(num, i + 1) == n
    ensures forall c :: tableLen <= c < sizes.Length ==> sizes[c] == old(sizes[c])
    ensures Assigned(syms[..n], sizes[..tableLen], num, j, i + 1, num[i + 1])
  {
    NextLevel(syms[..n], sizes[..tableLen], num, j0, i);
    LevelFits(num, i + 1, limit, j0, n);
    j := AssignLevel(syms, n, num, c, i + 1, tableLen, sizes, j0);
  }

  lemma LevelFits(num: seq<int>, i: nat, limit: nat, j: nat, n: nat)
    requires 1 <= i <= limit < |num| && Limiter.NonNegative(num)
    requires Limiter.Total(num, limit) == n && j + Limiter.Total(num, i - 1) == n
    ensures 0 <= num[i] <= j && Limiter.Total(num, i) == Limiter.Total(num, i - 1) + num[i]
  {
    TotalMono(num, i, limit);
  }

  lemma NothingAssigned(t: seq<SymFreq>, sizes: seq<nat>, num: seq<int>)
    requires |num| > 1 && forall k :: 0 <= k < |t| ==> t[k].sym < |sizes|
    requires forall c :: 0 <= c < |sizes| ==> sizes[c] == 0
    ensures Assigned(t, sizes, num, |t|, 1, 0)
  {
    CountNone(sizes, |sizes|, 1);
  }

  lemma {:induction false} TotalMono(num: seq<int>, i: nat, m: nat)
    requires 1 <= i <= m < |num| && Limiter.NonNegative(num)
    ensures Limiter.Total(num, i - 1) + num[i] <= Limiter.Total(num, m)
    decreases m
  {
    if i < m {
      TotalMono(num, i, m - 1);
    }
  }

  method GatherUsed(count: array<U16>, tableLen: nat, syms: array<SymFreq>) returns (n: nat)
    requires tableLen <= count.Length && tableLen <= syms.Length && tableLen <= MAX_SYMBOLS
    modifies syms
    ensures n <= tableLen && syms[..n] == Used(count[..tableLen])
  {
    n := 0;
    var i := 0;
    while i < tableLen
      invariant 0 <= i <= tableLen && n <= i && syms[..n] == Used(count[..i])
    {
      assert count[..i + 1][..i] == count[..i];
      if count[i] != 0 {
        syms[n] := SymFreq(count[i], i);
        n := n + 1;
      }
      i := i + 1;
    }
  }

  /** `next_code`: the first code word of every length. */
  method FirstCodes(num: array<int>, limit: nat, ghost sizes: seq<nat>) returns (next: array<nat>)
    requires 1 <= limit < num.Length
    requires forall l :: 1 <= l <= limit ==> num[l] == Count(sizes, l)
    ensures fresh(next) && next.Length == limit + 1
    ensures forall l :: 1 <= l <= limit ==> next[l] == First(sizes, l)
  {
    next := new nat[limit + 1](_ => 0);
    var i: nat, j: nat := 2, 0;
    while i <= limit
      invariant 2 <= i && (i <= limit + 1 || limit == 1) && j == First(sizes, i - 1)
      invariant forall l :: 1 <= l < i && l <= limit ==> next[l] == First(sizes, l)
    {
      j := 2 * (j + num[i - 1]);
      next[i] := j;
      i := i + 1;
    }
  }

  /** Gives every symbol with a length its code word, reversed. */
  method AssignCodes(sizes: array<nat>, tableLen: nat, next: array<nat>, limit: nat, codes: array<U16>)
    requires tableLen <= sizes.Length && tableLen <= codes.Length && next.Length == limit + 1 && limit <= MAX_CODE_SIZE
    requires Prefixable(sizes[..tableLen]) && forall i :: 0 <= i < tableLen ==> sizes[i] <= limit
    requires forall l :: 1 <= l <= limit ==> next[l] == First(sizes[..tableLen], l)
    requires sizes != next && sizes as object != codes as object && next as object != codes as object
    modifies codes, next
    ensures StoredCodes(sizes[..tableLen], codes[..])
  {
    ghost var s := sizes[..tableLen];
    var i := 0;
    while i < tableLen
      invariant 0 <= i <= tableLen && s == sizes[..tableLen]
      invariant forall l :: 1 <= l <= limit ==> next[l] == First(s, l) + CountUpTo(s, i, l)
      invariant StoredUpTo(s, codes[..], i)
    {
      assert sizes[i] == s[i] <= limit;
      AssignCode(sizes[i], i, next, limit, codes, s);
      i := i + 1;
    }
    AllStoredCodes(s, codes[..]);
  }

  lemma AllStoredCodes(s: seq<nat>, codes: seq<U16>)
    requires StoredUpTo(s, codes, |s|)
    ensures StoredCodes(s, codes)
  {
  }

  ghost predicate StoredUpTo(s: seq<nat>, codes: seq<U16>, n: nat) {
    && n <= |s| <= |codes|
    && forall i :: 0 <= i < n && s[i] != 0 ==> StoredAt(s, codes, i)
  }

  method AssignCode(size: nat, i: nat, next: array<nat>, limit: nat, codes: array<U16>, ghost s: seq<nat>)
    requires i < |s| <= codes.Length && size == s[i] && next.Length == limit + 1 && limit <= MAX_CODE_SIZE
    requires Prefixable(s) && size <= limit
    requires forall l :: 1 <= l <= limit ==> next[l] == First(s, l) + CountUpTo(s, i, l)
    requires StoredUpTo(s, codes[..], i) && next as object != codes as object
    modifies codes, next
    ensures forall l :: 1 <= l <= limit ==> next[l] == First(s, l) + CountUpTo(s, i + 1, l)
    ensures StoredUpTo(s, codes[..], i + 1)
  {
    if size == 0 {
      return;
    }
    CodeFits(s, i);
    assert next[size] == Code(s, i);
    var rev := ReverseCode(next[size], size);
    Pow2Values();
    Pow2Mono(size, 15);
    next[size] := next[size] + 1;
    codes[i] := rev;
    forall k | 0 <= k < i && s[k] != 0 ensures StoredAt(s, codes[..], k) {
      assert StoredAt(s, old(codes[..]), k);
    }
  }

  // ---- The lengths are good

  lemma LengthsAreGood(count: seq<U16>, t: seq<SymFreq>, sizes: seq<nat>, num: seq<int>, n: nat, limit: nat)
    requires |count| == |sizes| <= MAX_SYMBOLS && 1 <= limit <= MAX_CODE_SIZE
    requires Lists(t, count) && KeyOrder(t, count) && |t| == n == |Used(count)| && limit < |num|
    requires Assigned(t, sizes, num, 0, limit, num[limit])
    requires n >= 2 ==> Limiter.CompleteCounts(num, n, limit)
    requires n <= 1 ==> forall l :: 2 <= l <= limit ==> num[l] == 0
    requires n <= 1 ==> num[1] == n
    ensures GoodLengths(count, sizes, limit)
  {
    UsedGetLengths(count, t, sizes, limit);
    FrequentIsShort(count, t, sizes, limit);
    if n >= 2 {
      CompleteIsFull(sizes, num, n, limit);
    } else {
      FewSymbols(count, sizes, num, n, limit);
    }
  }

  lemma UsedGetLengths(count: seq<U16>, t: seq<SymFreq>, sizes: seq<nat>, limit: nat)
    requires |count| == |sizes| && Lists(t, count) && ListAssigned(t, sizes, 0, limit)
    ensures forall i :: 0 <= i < |sizes| ==> (sizes[i] != 0 <==> count[i] != 0) && sizes[i] <= limit
  {
    forall i | 0 <= i < |sizes|
      ensures (sizes[i] != 0 <==> count[i] != 0) && sizes[i] <= limit
    {
      if sizes[i] != 0 {
        assert Listed(t, 0, i);
      }
    }
  }

  lemma FrequentIsShort(count: seq<U16>, t: seq<SymFreq>, sizes: seq<nat>, limit: nat)
    requires |count| == |sizes| && Lists(t, count) && KeyOrder(t, count) && ListAssigned(t, sizes, 0, limit)
    ensures forall i, j :: 0 <= i < |sizes| && 0 <= j < |sizes| && 0 < count[i] < count[j] ==> sizes[i] >= sizes[j]
  {
    assert SizesAt(t, sizes)[0..] == SizesAt(t, sizes);
    forall i, j | 0 <= i < |sizes| && 0 <= j < |sizes| && 0 < count[i] < count[j]
      ensures sizes[i] >= sizes[j]
    {
      var x :| 0 <= x < |t| && t[x].sym == i;
      var y :| 0 <= y < |t| && t[y].sym == j;
      assert !(y <= x);
      assert SizesAt(t, sizes)[x] >= SizesAt(t, sizes)[y];
    }
  }

  lemma FewSymbols(count: seq<U16>, sizes: seq<nat>, num: seq<int>, n: nat, limit: nat)
    requires |sizes| <= MAX_SYMBOLS && n <= 1 && 1 <= limit <= MAX_CODE_SIZE && limit < |num|
    requires forall i :: 0 <= i < |sizes| ==> sizes[i] <= limit
    requires CountsAssigned(sizes, num, limit, num[limit])
    requires (forall l :: 2 <= l <= limit ==> num[l] == 0) && num[1] == n
    ensures Prefixable(sizes) && forall i :: 0 <= i < |sizes| ==> sizes[i] <= 1
  {
    assert forall l :: 2 <= l <= limit ==> Count(sizes, l) == 0;
    forall i | 0 <= i < |sizes| ensures sizes[i] <= 1 {
      CountIsAtLeastOne(sizes, i);
    }
    SingleIsPrefixable(sizes);
  }

  /** Sorted by count. */
  ghost predicate KeyOrder(t: seq<SymFreq>, count: seq<U16>)
    requires forall i :: 0 <= i < |t| ==> t[i].sym < |count|
  {
    forall i, j :: 0 <= i <= j < |t| ==> count[t[i].sym] <= count[t[j].sym]
  }

  // ---- Following one table through its steps

  lemma SortedUsed(count: seq<U16>, t: seq<SymFreq>)
    requires |count| <= MAX_SYMBOLS && Sum(count) < 0x1_0000
    requires KeysSorted(t) && multiset(t) == multiset(Used(count))
    ensures Lists(t, count) && KeyOrder(t, count) && |t| == |Used(count)| && SmallTotal(Keys(t))
  {
    UsedLists(count);
    UsedSum(count);
    PermutedLists(Used(count), t, count);
    SumOfPermutation(Used(count), t);
    assert |multiset(t)| == |multiset(Used(count))|;
  }

  /** The lengths that replace the keys of the sorted list. */
  ghost predicate FromKeys(t: seq<SymFreq>, ls: seq<nat>) {
    && |ls| == |t|
    && (|t| == 1 ==> ls[0] == 1)
    && (|t| >= 2 ==> MinimumRedundancy(Keys(t), ls) && LongIsRare(Keys(t), ls))
  }

  lemma LengthsComplete(t: seq<SymFreq>, ls: seq<nat>, num: seq<int>)
    requires FromKeys(t, ls) && |num| == Limiter.MAX_SUPPORTED + 1
    requires Limiter.NonNegative(num) && Limiter.Total(num, Limiter.MAX_SUPPORTED) == |t|
    requires AllAtMost(ls, Limiter.MAX_SUPPORTED)
    requires Limiter.Weight(num, Limiter.MAX_SUPPORTED, Limiter.MAX_SUPPORTED) == Kraft(ls, Limiter.MAX_SUPPORTED)
    ensures |t| >= 2 ==> Limiter.CompleteCounts(num, |t|, Limiter.MAX_SUPPORTED)
  {
    if |t| >= 2 {
      KraftScale(ls, 22, Limiter.MAX_SUPPORTED);
      Pow2Add(22, Limiter.MAX_SUPPORTED - 22);
    }
  }

  lemma {:induction false} TotalOfNone(num: seq<int>, i: nat, m: nat)
    requires 1 <= i <= m < |num| && forall l :: i < l <= m ==> num[l] == 0
    ensures Limiter.Total(num, m) == Limiter.Total(num, i)
    decreases m
  {
    if i < m {
      TotalOfNone(num, i, m - 1);
    }
  }

  /** With at most one symbol there is at most one word, of length one. */
  lemma SingleCounts(ls: seq<nat>, num: seq<int>, limit: nat)
    requires |ls| <= 1 && (|ls| == 1 ==> ls[0] == 1) && 1 <= limit < |num|
    requires forall l :: 0 <= l < |num| ==> num[l] == Count(ls, l)
    ensures num[1] == |ls| && forall l :: 2 <= l <= limit ==> num[l] == 0
    ensures Limiter.Total(num, limit) == |ls| && Limiter.NonNegative(num)
  {
    assert forall l :: Count(ls, l) == if |ls| == 1 && ls[0] == l then 1 else 0;
    TotalOfNone(num, 1, limit);
    assert Limiter.Total(num, 1) == Limiter.Total(num, 0) + num[1];
  }

  /** Only the symbol fields matter for handing out lengths. */
  lemma SameSyms(t: seq<SymFreq>, u: seq<SymFreq>, sizes: seq<nat>, num: seq<int>, j: nat, i: nat, given: int)
    requires |t| == |u| && forall k :: 0 <= k < |t| ==> t[k].sym == u[k].sym
    requires Assigned(u, sizes, num, j, i, given)
    ensures Assigned(t, sizes, num, j, i, given)
  {
    assert SizesAt(t, sizes) == SizesAt(u, sizes);
    forall c | 0 <= c < |sizes| && sizes[c] != 0 ensures Listed(t, j, c) {
      assert Listed(u, j, c);
    }
  }

  /** Positions and symbols carry the same lengths. */
  lemma {:induction false} CountAtPositions(t: seq<SymFreq>, sizes: seq<nat>, l: nat)
    requires DistinctSyms(t) && l >= 1 && forall k :: 0 <= k < |t| ==> t[k].sym < |sizes|
    requires forall c :: 0 <= c < |sizes| && sizes[c] == l ==> Listed(t, 0, c)
    ensures Count(SizesAt(t, sizes), l) == Count(sizes, l)
  {
    if t == [] {
      forall c | 0 <= c < |sizes| ensures sizes[c] != l {
        assert !Listed(t, 0, c);
      }
      CountNone(sizes, |sizes|, l);
    } else {
      var k := |t| - 1;
      var c := t[k].sym;
      var u, sizes' := t[..k], sizes[c := 0];
      forall d | 0 <= d < |sizes'| && sizes'[d] == l ensures Listed(u, 0, d) {
        assert Listed(t, 0, d);
        var x :| 0 <= x < |t| && t[x].sym == d;
        assert u[x].sym == d;
      }
      CountAtPositions(u, sizes', l);
      CountUpdate(sizes, |sizes|, c, 0, l);
      assert SizesAt(u, sizes') == SizesAt(t, sizes)[..k];
      CountOfPrefix(SizesAt(t, sizes)[..k], SizesAt(t, sizes), k, l);
    }
  }

  /** No word was cut: the counts are those of the original lengths. */
  ghost predicate NothingCut(ls: seq<nat>, num: seq<int>, limit: nat) {
    && |num| == Limiter.MAX_SUPPORTED + 1 && 1 <= limit <= MAX_CODE_SIZE
    && (forall l :: 0 <= l < |num| ==> num[l] == Count(ls, l))
    && Limiter.Total(num, limit) == Limiter.Total(num, Limiter.MAX_SUPPORTED)
    && Limiter.NonNegative(num)
  }

  lemma SameCount(t: seq<SymFreq>, ls: seq<nat>, sizes: seq<nat>, num: seq<int>, limit: nat, l: nat)
    requires |t| == |ls| && DistinctSyms(t) && NothingCut(ls, num, limit)
    requires forall i :: 0 <= i < |ls| ==> 1 <= ls[i] <= Limiter.MAX_SUPPORTED
    requires ListAssigned(t, sizes, 0, limit) && CountsAssigned(sizes, num, limit, num[limit])
    ensures Count(SizesAt(t, sizes), l) == Count(ls, l)
  {
    var r := SizesAt(t, sizes);
    if l == 0 {
      CountNone(r, |r|, 0);
      CountNone(ls, |ls|, 0);
    } else if l <= limit {
      CountAtPositions(t, sizes, l);
    } else {
      CountNone(r, |r|, l);
      if l < |num| {
        NoneBeyond(num, limit, l);
      } else {
        CountNone(ls, |ls|, l);
      }
    }
  }

  /** When no word was cut, every position keeps its minimum-redundancy length. */
  lemma NothingCutIsOptimal(t: seq<SymFreq>, ls: seq<nat>, sizes: seq<nat>, num: seq<int>, limit: nat)
    requires |t| == |ls| && DistinctSyms(t) && NothingCut(ls, num, limit) && Falling(ls)
    requires forall i :: 0 <= i < |ls| ==> 1 <= ls[i] <= Limiter.MAX_SUPPORTED
    requires Assigned(t, sizes, num, 0, limit, num[limit])
    ensures SizesAt(t, sizes) == ls
  {
    var r := SizesAt(t, sizes);
    assert r[0..] == r;
    forall l ensures Count(r, l) == Count(ls, l) {
      SameCount(t, ls, sizes, num, limit, l);
    }
    FallingUnique(r, ls);
  }

  lemma {:induction false} NoneBeyond(num: seq<int>, limit: nat, l: nat)
    requires 1 <= limit < l < |num| == Limiter.MAX_SUPPORTED + 1 && Limiter.NonNegative(num)
    requires Limiter.Total(num, limit) == Limiter.Total(num, Limiter.MAX_SUPPORTED)
    ensures num[l] == 0
  {
    TotalMono(num, l, Limiter.MAX_SUPPORTED);
    TotalMonoWeak(num, limit, l - 1);
  }

  lemma {:induction false} TotalMonoWeak(num: seq<int>, i: nat, m: nat)
    requires i <= m < |num| && Limiter.NonNegative(num)
    ensures Limiter.Total(num, i) <= Limiter.Total(num, m)
    decreases m
  {
    if i < m {
      TotalMonoWeak(num, i, m - 1);
    }
  }

  lemma CountsAre(sizes: seq<nat>, num: seq<int>, limit: nat)
    requires limit < |num| && CountsAssigned(sizes, num, limit, num[limit])
    ensures forall l :: 1 <= l <= limit ==> num[l] == Count(sizes, l)
  {
  }

  /** Unless some word is as long as the limit, the lengths are minimal. */
  ghost predicate MinimalUnlessLimited(t: seq<SymFreq>, sizes: seq<nat>, limit: nat)
    requires forall k :: 0 <= k < |t| ==> t[k].sym < |sizes|
  {
    |t| >= 2 && (forall i :: 0 <= i < |sizes| ==> sizes[i] < limit) ==> MinimumRedundancy(Keys(t), SizesAt(t, sizes))
  }

  /** `num` comes from the counts of `ls` by limiting. */
  ghost predicate Lengthened(ls: seq<nat>, num: seq<int>) {
    exists num0: seq<int>, i: nat, k: nat ::
      |num0| == |num| && LimitCost.Counts(ls, num0, MAX_CODE_SIZE)
          && Limiter.FewLengthened(num0, num, |ls|, MAX_CODE_SIZE, i, k)
  }

  /** Even with limited lengths, the code is almost as short as can be. */
  ghost predicate NearlyMinimal(t: seq<SymFreq>, sizes: seq<nat>)
    requires forall k :: 0 <= k < |t| ==> t[k].sym < |sizes|
  {
    |t| >= 2 ==> 538 * Cost(Keys(t), SizesAt(t, sizes)) <= 538 * HuffmanCost(Keys(t)) + 2 * |t| * Sum(Keys(t))
  }

  lemma TableIsNearlyMinimal(t: seq<SymFreq>, ls: seq<nat>, sizes: seq<nat>, num: seq<int>)
    requires FromKeys(t, ls) && DistinctSyms(t) && |num| > MAX_CODE_SIZE
    requires Assigned(t, sizes, num, 0, MAX_CODE_SIZE, num[MAX_CODE_SIZE])
    requires |t| >= 2 ==> Lengthened(ls, num)
    ensures NearlyMinimal(t, sizes)
  {
    if |t| >= 2 {
      var r := SizesAt(t, sizes);
      assert r[0..] == r;
      forall l | 1 <= l <= MAX_CODE_SIZE ensures num[l] == Count(r, l) {
        CountAtPositions(t, sizes, l);
      }
      var num0: seq<int>, i: nat, k: nat :|
        |num0| == |num| && LimitCost.Counts(ls, num0, MAX_CODE_SIZE)
            && Limiter.FewLengthened(num0, num, |ls|, MAX_CODE_SIZE, i, k);
      LimitCost.LimitingIsCheap(Keys(t), ls, r, num0, num, i, k);
    }
  }

  lemma TableIsOptimal(t: seq<SymFreq>, ls: seq<nat>, sizes: seq<nat>, num: seq<int>, limit: nat)
    requires FromKeys(t, ls) && DistinctSyms(t) && 1 <= limit < |num|
    requires Assigned(t, sizes, num, 0, limit, num[limit])
    requires |t| >= 2 && num[limit] == 0 ==> NothingCut(ls, num, limit)
    ensures MinimalUnlessLimited(t, sizes, limit)
  {
    if |t| >= 2 && forall i :: 0 <= i < |sizes| ==> sizes[i] < limit {
      CountNone(sizes, |sizes|, limit);
      NothingCutIsOptimal(t, ls, sizes, num, limit);
    }
  }

  /** The used symbols in the order of their counts. */
  ghost predicate SortedFor(count: seq<U16>, t: seq<SymFreq>) {
    (&& |count| <= MAX_SYMBOLS && KeysSorted(t) && Lists(t, count) && KeyOrder(t, count)
     && |t| == |Used(count)| && SmallTotal(Keys(t))) == true
  }

  /** Length counts that come from the lengths `ls` by limiting them. */
  ghost predicate LimitedTo(ls: seq<nat>, num: seq<int>, limit: nat) {
    (&& 1 <= limit <= MAX_CODE_SIZE && limit < |num|
     && Limiter.NonNegative(num) && Limiter.Total(num, limit) == |ls|
     && (|ls| >= 2 ==> Limiter.CompleteCounts(num, |ls|, limit))
     && (|ls| <= 1 ==> num[1] == |ls| && forall l :: 2 <= l <= limit ==> num[l] == 0)
     && (|ls| >= 2 && num[limit] == 0 ==> NothingCut(ls, num, limit))
     && (|ls| >= 2 && limit == MAX_CODE_SIZE ==> Lengthened(ls, num))) == true
  }

  /** What the sorted list and the limiter hand over. */
  ghost predicate Prepared(count: seq<U16>, t: seq<SymFreq>, u: seq<SymFreq>, num: seq<int>, limit: nat) {
    (&& SortedFor(count, t) && |u| == |t| && FromKeys(t, Keys(u)) && LimitedTo(Keys(u), num, limit)
     && forall k :: 0 <= k < |t| ==> t[k].sym == u[k].sym) == true
  }

  ghost predicate Built(count: seq<U16>, t: seq<SymFreq>, sizes: seq<nat>, num: seq<int>, limit: nat) {
    && GoodLengths(count, sizes, limit) && limit < |num|
    && (forall l :: 1 <= l <= limit ==> num[l] == Count(sizes, l))
    && Lists(t, count) && |t| <= |count| && MinimalUnlessLimited(t, sizes, limit)
        && (limit == MAX_CODE_SIZE ==> NearlyMinimal(t, sizes))
  }

  lemma TableBuilt(count: seq<U16>, t: seq<SymFreq>, u: seq<SymFreq>, sizes: seq<nat>, num: seq<int>, limit: nat)
    requires Prepared(count, t, u, num, limit) && |sizes| == |count|
    requires Assigned(u, sizes, num, 0, limit, num[limit])
    ensures Built(count, t, sizes, num, limit)
  {
    SameSyms(t, u, sizes, num, 0, limit, num[limit]);
    LengthsAreGood(count, t, sizes, num, |t|, limit);
    TableIsOptimal(t, Keys(u), sizes, num, limit);
    if limit == MAX_CODE_SIZE {
      TableIsNearlyMinimal(t, Keys(u), sizes, num);
    }
    CountsAre(sizes, num, limit);
  }

  // ---- The table

  /** `m_huff_count`, `m_huff_codes` and `m_huff_code_sizes` of one table. */
  class Table {
    const count: array<U16>
    const codes: array<U16>
    const sizes: array<nat>

    ghost predicate Valid() {
      && count.Length == codes.Length == sizes.Length == MAX_SYMBOLS
      && count != codes && count as object != sizes as object && codes as object != sizes as object
    }

    /** The table encodes its first `n` symbols with a canonical prefix code. */
    ghost predicate Ready(n: nat)
      reads codes, sizes
    {
      Valid() && n <= MAX_SYMBOLS && Prefixable(sizes[..n]) && StoredCodes(sizes[..n], codes[..])
    }

    constructor ()
      ensures Valid() && fresh(count) && fresh(codes) && fresh(sizes)
      ensures forall i :: 0 <= i < MAX_SYMBOLS ==> count[i] == 0
    {
      count := new U16[MAX_SYMBOLS](_ => 0);
      codes := new U16[MAX_SYMBOLS];
      sizes := new nat[MAX_SYMBOLS];
    }

    /** The last steps, shared by dynamic and static tables. */
    method Finish(tableLen: nat, limit: nat, num: array<int>)
      requires Valid() && tableLen <= MAX_SYMBOLS && 1 <= limit <= MAX_CODE_SIZE && limit < num.Length
      requires Prefixable(sizes[..tableLen]) && forall i :: 0 <= i < tableLen ==> sizes[i] <= limit
      requires forall l :: 1 <= l <= limit ==> num[l] == Count(sizes[..tableLen], l)
      modifies codes
      ensures Ready(tableLen)
    {
      var next := FirstCodes(num, limit, sizes[..tableLen]);
      AssignCodes(sizes, tableLen, next, limit, codes);
    }

    /** `tdefl_optimize_huffman_table` for given code lengths. */
    method OptimizeStatic(tableLen: nat, limit: nat)
      requires Valid() && tableLen <= MAX_SYMBOLS && 1 <= limit <= MAX_CODE_SIZE
      requires Prefixable(sizes[..tableLen]) && forall i :: 0 <= i < tableLen ==> sizes[i] <= limit
      modifies codes
      ensures Ready(tableLen)
    {
      ghost var s := sizes[..tableLen];
      var num := new int[Limiter.MAX_SUPPORTED + 1](_ => 0);
      var i := 0;
      while i < tableLen
        invariant 0 <= i <= tableLen && s == sizes[..tableLen]
        invariant forall l :: 0 <= l < num.Length ==> num[l] == CountUpTo(s, i, l)
      {
        assert sizes[i] == s[i];
        num[sizes[i]] := num[sizes[i]] + 1;
        i := i + 1;
      }
      Finish(tableLen, limit, num);
    }

    method ClearSizes()
      requires Valid()
      modifies sizes
      ensures forall c :: 0 <= c < MAX_SYMBOLS ==> sizes[c] == 0
    {
      var i := 0;
      while i < MAX_SYMBOLS
        invariant 0 <= i <= MAX_SYMBOLS && forall c :: 0 <= c < i ==> sizes[c] == 0
      {
        sizes[i] := 0;
        i := i + 1;
      }
    }

    /** Sorts the used symbols by count. */
    method SortUsed(tableLen: nat) returns (syms: array<SymFreq>, n: nat)
      requires Valid() && tableLen <= MAX_SYMBOLS && Sum(count[..tableLen]) < 0x1_0000
      ensures fresh(syms) && n <= syms.Length && n <= tableLen && SortedFor(count[..tableLen], syms[..n])
    {
      var syms0 := new SymFreq[MAX_SYMBOLS](_ => SymFreq(0, 0));
      var syms1 := new SymFreq[MAX_SYMBOLS](_ => SymFreq(0, 0));
      n := GatherUsed(count, tableLen, syms0);
      syms := RadixSortSyms(n, syms0, syms1);
      SortedUsed(count[..tableLen], syms[..n]);
    }

    /** Turns sorted counts into length counts. */
    method RedundancyCounts(syms: array<SymFreq>, n: nat) returns (num: array<int>)
      requires n <= syms.Length && SmallTotal(Keys(syms[..n]))
      modifies syms
      ensures SameSymbols(syms[..], old(syms[..]), n) && FromKeys(old(syms[..n]), Keys(syms[..n]))
      ensures fresh(num) && num.Length == Limiter.MAX_SUPPORTED + 1
      ensures forall l :: 0 <= l < num.Length ==> num[l] == Count(Keys(syms[..n]), l)
      ensures n >= 2 ==> Limiter.CompleteCounts(num[..], n, Limiter.MAX_SUPPORTED)
    {
      ghost var t := syms[..n];
      CalculateMinimumRedundancy(syms, n);
      ghost var ls := Keys(syms[..n]);
      assert FromKeys(t, ls) && forall i :: 0 <= i < n ==> 1 <= ls[i] <= 22;
      num := CountLengths(syms, n);
      LengthsComplete(t, ls, num[..]);
    }

    /** Limits the counted lengths. */
    method LimitCounts(num: array<int>, n: nat, limit: nat, ghost ls: seq<nat>)
      requires 1 <= limit <= MAX_CODE_SIZE && n == |ls| <= Pow2(limit) && num.Length == Limiter.MAX_SUPPORTED + 1
      requires (n == 1 ==> ls[0] == 1) && forall l :: 0 <= l < num.Length ==> num[l] == Count(ls, l)
      requires n >= 2 ==> Limiter.CompleteCounts(num[..], n, Limiter.MAX_SUPPORTED)
      modifies num
      ensures LimitedTo(ls, num[..], limit)
    {
      ghost var num0 := num[..];
      ghost var base, k := Limiter.EnforceMaxCodeSize(num, n, limit);
      if n <= 1 {
        assert num[..] == num0;
        SingleCounts(ls, num[..], limit);
      } else {
        AfterLimiting(ls, num0, num[..], limit, base, k);
      }
    }

    /** Turns sorted counts into limited length counts. */
    method LimitedCounts(syms: array<SymFreq>, n: nat, limit: nat) returns (num: array<int>)
      requires n <= syms.Length && SmallTotal(Keys(syms[..n])) && 1 <= limit <= MAX_CODE_SIZE && n <= Pow2(limit)
      modifies syms
      ensures SameSymbols(syms[..], old(syms[..]), n)
      ensures fresh(num) && num.Length == Limiter.MAX_SUPPORTED + 1
      ensures FromKeys(old(syms[..n]), Keys(syms[..n]))
      ensures LimitedTo(Keys(syms[..n]), num[..], limit)
    {
      ghost var t := syms[..n];
      num := RedundancyCounts(syms, n);
      ghost var ls := Keys(syms[..n]);
      LimitCounts(num, n, limit, ls);
    }

    lemma AfterLimiting(ls: seq<nat>, num0: seq<int>, num: seq<int>, limit: nat, base: nat, k: nat)
      requires 2 <= |ls| && 1 <= limit <= MAX_CODE_SIZE && |num0| == |num| == Limiter.MAX_SUPPORTED + 1
      requires forall l :: 0 <= l < |num0| ==> num0[l] == Count(ls, l)
      requires Limiter.CompleteCounts(num0, |ls|, Limiter.MAX_SUPPORTED) && Limiter.CompleteCounts(num, |ls|, limit)
      requires limit >= 2 ==> Limiter.FewLengthened(num0, num, |ls|, limit, base, k)
      requires num[limit] == 0 ==> num == num0
      ensures num[limit] == 0 ==> NothingCut(ls, num, limit)
      ensures limit == MAX_CODE_SIZE ==> Lengthened(ls, num)
    {
      if limit == MAX_CODE_SIZE {
        assert LimitCost.Counts(ls, num0, MAX_CODE_SIZE)
            && Limiter.FewLengthened(num0, num, |ls|, MAX_CODE_SIZE, base, k);
      }
    }

    /** Sorted symbols and the counts of their limited lengths. */
    method Prepare(tableLen: nat, limit: nat)
      returns (syms: array<SymFreq>, n: nat, num: array<int>, ghost t: seq<SymFreq>)
      requires Valid() && tableLen <= MAX_SYMBOLS && 1 <= limit <= MAX_CODE_SIZE && tableLen <= Pow2(limit)
      requires Sum(count[..tableLen]) < 0x1_0000
      ensures fresh(num) && fresh(syms) && n <= syms.Length && num.Length == Limiter.MAX_SUPPORTED + 1
      ensures Prepared(count[..tableLen], t, syms[..n], num[..], limit) && KeysSorted(t)
    {
      syms, n := SortUsed(tableLen);
      t := syms[..n];
      num := LimitedCounts(syms, n, limit);
      assert forall k :: 0 <= k < n ==> t[k].sym == syms[..n][k].sym;
    }

    lemma PreparedSyms(cnt: seq<U16>, t: seq<SymFreq>, u: seq<SymFreq>, num: seq<int>, limit: nat)
      requires Prepared(cnt, t, u, num, limit)
      ensures DistinctSyms(u) && forall k :: 0 <= k < |u| ==> u[k].sym < |cnt|
      ensures Limiter.NonNegative(num) && Limiter.Total(num, limit) == |u|
    {
    }

    /** Everything up to the code words themselves. */
    method LimitedSizes(tableLen: nat, limit: nat) returns (num: array<int>, ghost t: seq<SymFreq>)
      requires Valid() && tableLen <= MAX_SYMBOLS && 1 <= limit <= MAX_CODE_SIZE && tableLen <= Pow2(limit)
      requires Sum(count[..tableLen]) < 0x1_0000
      modifies sizes
      ensures fresh(num) && Built(count[..tableLen], t, sizes[..tableLen], num[..], limit)
      ensures forall c :: tableLen <= c < MAX_SYMBOLS ==> sizes[c] == 0
      ensures KeysSorted(t)
    {
      ghost var cnt := count[..tableLen];
      var syms, n;
      syms, n, num, t := Prepare(tableLen, limit);
      ghost var u, nm := syms[..n], num[..];
      PreparedSyms(cnt, t, u, nm, limit);
      ClearSizes();
      assert u == syms[..n] && nm == num[..];
      AssignSizes(syms, n, num, limit, tableLen, sizes, u, nm);
      assert cnt == count[..tableLen] && nm == num[..];
      TableBuilt(cnt, t, u, sizes[..tableLen], nm, limit);
    }

    /** `tdefl_optimize_huffman_table` from symbol counts. */
    method Optimize(tableLen: nat, limit: nat) returns (ghost t: seq<SymFreq>)
      requires Valid() && tableLen <= MAX_SYMBOLS && 1 <= limit <= MAX_CODE_SIZE && tableLen <= Pow2(limit)
      requires Sum(count[..tableLen]) < 0x1_0000
      modifies codes, sizes
      ensures Ready(tableLen) && GoodLengths(count[..tableLen], sizes[..tableLen], limit)
      ensures forall c :: tableLen <= c < MAX_SYMBOLS ==> sizes[c] == 0
      ensures Lists(t, count[..tableLen]) && KeysSorted(t) && MinimalUnlessLimited(t, sizes[..tableLen], limit)
      ensures |t| <= tableLen && (limit == MAX_CODE_SIZE ==> NearlyMinimal(t, sizes[..tableLen]))
    {
      var num;
      num, t := LimitedSizes(tableLen, limit);
      ghost var cnt, s := count[..tableLen], sizes[..tableLen];
      Finish(tableLen, limit, num);
      assert cnt == count[..tableLen] && s == sizes[..tableLen];
    }
  }
}
