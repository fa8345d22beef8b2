/**
 How long a block can get. Because the made-to-measure codes are minimal, their
 block is hardly longer than one with the fixed codes, even where code words had
 to be cut to the length limit.
 */
module BlockSize {
  import opened Bits
  import opened OptimalCode
  import opened MergeTree
  import opened MinRedundancy
  import opened Canonical
  import RadixSort
  import HuffTable
  import opened Tokens
  import opened InflateSpec
  import opened BlockBits
  import opened CodeLengths
  import opened LzBuffer
  import opened BlockWriter

  // ---- Cost by symbol and cost by token

  lemma CostReweigh(ws: seq<nat>, ls: seq<nat>, i: nat, v: nat)
    requires |ws| == |ls| && i < |ws|
    ensures Cost(ws[i := v], ls) + ws[i] * ls[i] == Cost(ws, ls) + v * ls[i]
  {
    CostUpdate(ws, ls, i, v, ls[i]);
    assert ls[i := ls[i]] == ls;
  }

  lemma {:induction false} CostZero(ws: seq<nat>, ls: seq<nat>)
    requires |ws| == |ls| && forall i :: 0 <= i < |ws| ==> ws[i] == 0
    ensures Cost(ws, ls) == 0
  {
    if ws != [] {
      CostZero(ws[1..], ls[1..]);
    }
  }

  lemma {:induction false} CostSnoc(ws: seq<nat>, ls: seq<nat>)
    requires |ws| == |ls| >= 1
    ensures Cost(ws, ls) == Cost(ws[..|ws| - 1], ls[..|ls| - 1]) + ws[|ws| - 1] * ls[|ls| - 1]
  {
    if |ws| > 1 {
      CostSnoc(ws[1..], ls[1..]);
      assert ws[1..][..|ws| - 2] == ws[..|ws| - 1][1..] && ls[1..][..|ls| - 2] == ls[..|ls| - 1][1..];
    }
  }

  /** How often each literal/length symbol is used. */
  ghost function LitCounts(ts: seq<Token>): (s: seq<nat>)
    requires AllStorable(ts)
    ensures |s| == 288 && forall i :: 0 <= i < 288 ==> s[i] == LitUses(ts, i)
  {
    seq(288, i requires 0 <= i < 288 => LitUses(ts, i))
  }

  /** The same for distance symbols. */
  ghost function DistCounts(ts: seq<Token>): (s: seq<nat>)
    requires AllStorable(ts)
    ensures |s| == 32 && forall i :: 0 <= i < 32 ==> s[i] == DistUses(ts, i)
  {
    seq(32, i requires 0 <= i < 32 => DistUses(ts, i))
  }

  /** What the tokens' extra bits take, whatever the codes. */
  ghost function ExtraSize(ts: seq<Token>): nat
    requires AllStorable(ts)
  {
    if ts == [] then 0
    else
      var t := ts[|ts| - 1];
      ExtraSize(ts[..|ts| - 1]) + (if t.Match? then LenExtra(t.len - MIN_MATCH) + DistExtra(t.dist - 1) else 0)
  }

  lemma LitCountsSnoc(ts: seq<Token>, t: Token)
    requires AllStorable(ts) && Fits(t, MAX_DIST)
    ensures AllStorable(ts + [t])
    ensures LitCounts(ts + [t]) == LitCounts(ts)[LitSym(t) := LitCounts(ts)[LitSym(t)] + 1]
  {
    LzBuffer.UsesSnoc(ts, t, 0);
    forall i | 0 <= i < 288
      ensures LitCounts(ts + [t])[i] == LitCounts(ts)[LitSym(t) := LitCounts(ts)[LitSym(t)] + 1][i]
    {
      LzBuffer.UsesSnoc(ts, t, i);
    }
  }

  lemma DistCountsSnoc(ts: seq<Token>, t: Token)
    requires AllStorable(ts) && Fits(t, MAX_DIST)
    ensures AllStorable(ts + [t])
    ensures t.Literal? ==> DistCounts(ts + [t]) == DistCounts(ts)
    ensures t.Match? ==>
              DistCounts(ts + [t]) == DistCounts(ts)[DistSym(t.dist - 1) := DistCounts(ts)[DistSym(t.dist - 1)] + 1]
  {
    LzBuffer.UsesSnoc(ts, t, 0);
    forall i | 0 <= i < 32
      ensures t.Literal? ==> DistCounts(ts + [t])[i] == DistCounts(ts)[i]
      ensures t.Match? ==>
                DistCounts(ts + [t])[i]
                == DistCounts(ts)[DistSym(t.dist - 1) := DistCounts(ts)[DistSym(t.dist - 1)] + 1][i]
    {
      LzBuffer.UsesSnoc(ts, t, i);
    }
  }

  lemma CostOneMore(ws: seq<nat>, ls: seq<nat>, i: nat)
    requires |ws| == |ls| && i < |ws|
    ensures Cost(ws[i := ws[i] + 1], ls) == Cost(ws, ls) + ls[i]
  {
    CostReweigh(ws, ls, i, ws[i] + 1);
    assert (ws[i] + 1) * ls[i] == ws[i] * ls[i] + ls[i];
  }

  lemma TokenSize(L: seq<nat>, D: seq<nat>, t: Token)
    requires Encodable(L, D, t) && Fits(t, MAX_DIST)
    ensures t.Literal? ==> |TokenBits(L, D, t)| == L[LitSym(t)]
    ensures t.Match? ==>
              |TokenBits(L, D, t)| ==
                  L[LitSym(t)] + LenExtra(t.len - MIN_MATCH) + D[DistSym(t.dist - 1)] + DistExtra(t.dist - 1)
  {
  }

  lemma CountsOneMore(L: seq<nat>, D: seq<nat>, ts: seq<Token>, t: Token)
    requires |L| == 288 && |D| == 32 && AllStorable(ts) && Fits(t, MAX_DIST)
    ensures AllStorable(ts + [t]) && Cost(LitCounts(ts + [t]), L) == Cost(LitCounts(ts), L) + L[LitSym(t)]
    ensures Cost(DistCounts(ts + [t]), D) == Cost(DistCounts(ts), D) + (if t.Match? then D[DistSym(t.dist - 1)] else 0)
  {
    LitCountsSnoc(ts, t);
    DistCountsSnoc(ts, t);
    CostOneMore(LitCounts(ts), L, LitSym(t));
    if t.Match? {
      CostOneMore(DistCounts(ts), D, DistSym(t.dist - 1));
    }
  }

  /** The size of compressed data is the cost of both codes for the counted symbols, and the extra bits. */
  lemma {:induction false} SizeByCounts(L: seq<nat>, D: seq<nat>, ts: seq<Token>)
    requires |L| == 288 && |D| == 32 && AllStorable(ts) && AllEncodable(L, D, ts)
    ensures |TokensBits(L, D, ts)| == Cost(LitCounts(ts), L) + Cost(DistCounts(ts), D) + ExtraSize(ts)
    decreases |ts|
  {
    if ts == [] {
      CostZero(LitCounts(ts), L);
      CostZero(DistCounts(ts), D);
    } else {
      var k := |ts| - 1;
      var init, t := ts[..k], ts[k];
      assert ts == init + [t];
      SizeByCounts(L, D, init);
      TokensBitsSnoc(L, D, init, t);
      TokenSize(L, D, t);
      CountsOneMore(L, D, init, t);
    }
  }

  // ---- Cost by symbol and cost by sorted list

  lemma {:induction false} CostOfList(t: seq<SymFreq>, count: seq<U16>, ls: seq<nat>)
    requires |count| == |ls| && HuffTable.Lists(t, count)
    ensures Cost(Keys(t), HuffTable.SizesAt(t, ls)) == Cost(count, ls)
    decreases |t|
  {
    if t == [] {
      CostZero(count, ls);
    } else {
      var k := |t| - 1;
      var u, c := t[..k], t[k].sym;
      var count' := count[c := 0];
      RestLists(t, count);
      CostOfList(u, count', ls);
      CostReweigh(count, ls, c, 0);
      CostSnoc(Keys(t), HuffTable.SizesAt(t, ls));
      assert Keys(t)[..k] == Keys(u) && HuffTable.SizesAt(t, ls)[..k] == HuffTable.SizesAt(u, ls);
    }
  }

  lemma RestLists(t: seq<SymFreq>, count: seq<U16>)
    requires t != [] && HuffTable.Lists(t, count)
    ensures HuffTable.Lists(t[..|t| - 1], count[t[|t| - 1].sym := 0])
  {
    var k := |t| - 1;
    var u, count' := t[..k], count[t[k].sym := 0];
    forall c | 0 <= c < |count'| && count'[c] != 0 ensures exists i :: 0 <= i < |u| && u[i].sym == c {
      var i :| 0 <= i < |t| && t[i].sym == c;
      assert u[i].sym == c;
    }
  }

  // ---- A minimal code against the fixed one

  /** The fixed code words of the listed symbols. */
  ghost function WordsOf(t: seq<SymFreq>, F: seq<nat>): (codes: seq<seq<bool>>)
    requires forall i :: 0 <= i < |t| ==> t[i].sym < |F|
    ensures |codes| == |t| && forall i :: 0 <= i < |t| ==> codes[i] == CodeBits(F, t[i].sym)
  {
    seq(|t|, i requires 0 <= i < |t| => CodeBits(F, t[i].sym))
  }

  lemma WordsArePrefixFree(t: seq<SymFreq>, F: seq<nat>)
    requires HuffTable.DistinctSyms(t) && Prefixable(F)
    requires forall i :: 0 <= i < |t| ==> t[i].sym < |F| && F[t[i].sym] >= 1
    ensures PrefixFree(WordsOf(t, F)) && Lengths(WordsOf(t, F)) == HuffTable.SizesAt(t, F)
    ensures AllAtMost(Lengths(WordsOf(t, F)), MAX_CODE_SIZE)
  {
    forall i, j | 0 <= i < |t| && 0 <= j < |t| && i != j ensures !(WordsOf(t, F)[i] <= WordsOf(t, F)[j]) {
      CodesArePrefixFree(F, t[i].sym, t[j].sym);
    }
  }

  lemma {:induction false} ListSum(t: seq<SymFreq>, count: seq<U16>)
    requires HuffTable.Lists(t, count)
    ensures Sum(Keys(t)) == Sum(count)
    decreases |t|
  {
    if t == [] {
      SumZero(count);
    } else {
      var k := |t| - 1;
      var c := t[k].sym;
      RestLists(t, count);
      ListSum(t[..k], count[c := 0]);
      SumUpdate(count, c, 0);
      assert Keys(t) == Keys(t[..k]) + [t[k].key];
      SumConcat(Keys(t[..k]), [t[k].key]);
    }
  }

  /** A table's code costs hardly more than any other prefix code for its symbols. */
  lemma CheapNearFixed(count: seq<U16>, L: seq<nat>, t: seq<SymFreq>, F: seq<nat>)
    requires Cheap(count, L, t) && |F| == |count|
    requires Prefixable(F) && forall i :: 0 <= i < |F| ==> F[i] >= 1
    ensures 538 * Cost(count, L) <= 538 * Cost(count, F) + 2 * |count| * Sum(count)
  {
    if |t| <= 1 {
      CostMono(count, L, F);
      ProductNonNegative(|count|, Sum(count));
    } else {
      CostOfList(t, count, L);
      CostOfList(t, count, F);
      ListSum(t, count);
      HuffmanBeats(t, F);
      ThreeBounds(Cost(count, L), HuffmanCost(Keys(t)), Cost(count, F), |t|, |count|, Sum(count));
    }
  }

  lemma HuffmanBeats(t: seq<SymFreq>, F: seq<nat>)
    requires HuffTable.DistinctSyms(t) && RadixSort.KeysSorted(t) && Prefixable(F) && t != []
    requires forall i :: 0 <= i < |t| ==> t[i].sym < |F| && F[t[i].sym] >= 1
    ensures HuffmanCost(Keys(t)) <= Cost(Keys(t), HuffTable.SizesAt(t, F))
  {
    WordsArePrefixFree(t, F);
    SortedKeys(t);
    NoPrefixCodeIsCheaper(Keys(t), WordsOf(t, F), MAX_CODE_SIZE);
  }

  lemma ThreeBounds(a: nat, h: nat, f: nat, m: nat, n: nat, s: nat)
    requires 538 * a <= 538 * h + 2 * m * s && h <= f && m <= n
    ensures 538 * a <= 538 * f + 2 * n * s
  {
    MulMonoLeft(m, n, s);
    assert 2 * m * s == 2 * (m * s) && 2 * n * s == 2 * (n * s);
  }

  lemma ProductNonNegative(n: nat, s: nat)
    ensures 2 * n * s >= 0
  {
  }

  lemma SortedKeys(t: seq<SymFreq>)
    requires RadixSort.KeysSorted(t)
    ensures Sorted(Keys(t))
  {
  }

  lemma {:induction false} CountSums(ts: seq<Token>)
    requires AllStorable(ts)
    ensures Sum(LitCounts(ts)) == |ts| && Sum(DistCounts(ts)) <= |ts|
    decreases |ts|
  {
    if ts == [] {
      SumZero(LitCounts(ts));
      SumZero(DistCounts(ts));
    } else {
      var k := |ts| - 1;
      var init, t := ts[..k], ts[k];
      assert ts == init + [t];
      CountSums(init);
      LitCountsSnoc(init, t);
      DistCountsSnoc(init, t);
      SumUpdate(LitCounts(init), LitSym(t), LitCounts(init)[LitSym(t)] + 1);
      if t.Match? {
        SumUpdate(DistCounts(init), DistSym(t.dist - 1), DistCounts(init)[DistSym(t.dist - 1)] + 1);
      }
    }
  }

  /** Both codes together: the compressed data is hardly longer than with the fixed codes. */
  lemma DynamicHardlyLonger(ts: seq<Token>, L: seq<nat>, D: seq<nat>, FL: seq<nat>, FD: seq<nat>)
    requires AllStorable(ts) && CheapFor(ts, L, D)
    requires |L| == 288 && |D| == 32 && AllEncodable(L, D, ts)
    requires FixedLengths(FL, FD) && AllEncodable(FL, FD, ts)
    ensures 538 * |BodyBits(L, D, ts)| <= 538 * |BodyBits(FL, FD, ts)| + 640 * |ts| + 576
  {
    LitHardlyLonger(ts, L, FL, FD);
    DistHardlyLonger(ts, D, FL, FD);
    SizeByCounts(L, D, ts);
    SizeByCounts(FL, FD, ts);
  }

  /** The end-of-block symbol counts once. */
  lemma LitHardlyLonger(ts: seq<Token>, L: seq<nat>, FL: seq<nat>, FD: seq<nat>)
    requires AllStorable(ts) && |L| == 288 && FixedLengths(FL, FD) && exists lc, tl :: CheapLit(ts, L, lc, tl)
    ensures 538 * (Cost(LitCounts(ts), L) + L[256]) <= 538 * (Cost(LitCounts(ts), FL) + FL[256]) + 576 * (|ts| + 1)
  {
    var lc, tl :| CheapLit(ts, L, lc, tl);
    FixedLitFull(FL, FD);
    CheapNearFixed(lc[256 := 1], L, tl, FL);
    LitCountsAre(ts, lc);
    CostReweigh(lc, L, 256, 1);
    CostReweigh(lc, FL, 256, 1);
    SumUpdate(lc, 256, 1);
    CountSums(ts);
  }

  lemma DistHardlyLonger(ts: seq<Token>, D: seq<nat>, FL: seq<nat>, FD: seq<nat>)
    requires AllStorable(ts) && |D| == 32 && FixedLengths(FL, FD) && exists dc, td :: CheapDist(ts, D, dc, td)
    ensures 538 * Cost(DistCounts(ts), D) <= 538 * Cost(DistCounts(ts), FD) + 64 * |ts|
  {
    var dc, td :| CheapDist(ts, D, dc, td);
    FixedDistFull(FL, FD);
    CheapNearFixed(dc, D, td, FD);
    assert dc == DistCounts(ts);
    CountSums(ts);
  }

  lemma LitCountsAre(ts: seq<Token>, lc: seq<U16>)
    requires AllStorable(ts) && CountsLit(lc, ts)
    ensures lc == LitCounts(ts) && lc[256] == 0
  {
    LzBuffer.ReservedUnused(ts, 256);
    assert lc[256] == LitUses(ts, 256);
    assert forall i :: 0 <= i < 288 ==> lc[i] == LitUses(ts, i);
  }

  // ---- The header

  lemma {:induction false} OpsSize(cl: seq<nat>, ops: seq<Op>)
    requires OpsCoded(cl, ops) && forall i :: 0 <= i < |cl| ==> cl[i] < 8
    ensures |OpsBits(cl, ops)| <= 14 * |ops|
  {
    if ops != [] {
      TailCoded(cl, ops);
      OpsSize(cl, ops[1..]);
    }
  }

  lemma {:induction false} OpsCount(ops: seq<Op>, lens: seq<nat>)
    requires OpsOk(ops, lens)
    ensures |lens| + |ops| <= |Unpack(lens, ops)|
    decreases |ops|
  {
    if ops != [] {
      OpsCount(ops[1..], Do(lens, ops[0]));
    }
  }

  lemma {:induction false} SwizzledSize(cl: seq<nat>, i: nat, n: nat)
    requires i <= n <= MAX_CODE_LENGTHS == |cl|
    ensures |SwizzledBits(cl, i, n)| == 3 * (n - i)
    decreases n - i
  {
    if i < n {
      SwizzledSize(cl, i + 1, n);
    }
  }

  /** A header takes at most 4551 bits. */
  lemma HeaderSize(h: Header, lens: seq<nat>)
    requires GoodHeader(h, lens) && |lens| <= 320
    ensures |HeaderBits(h)| <= 14 + 57 + 14 * 320
  {
    OpsCount(h.ops, []);
    OpsSize(h.cl, h.ops);
    SwizzledSize(h.cl, 0, h.n);
  }
}
