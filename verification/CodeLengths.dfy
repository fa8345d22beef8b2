/**
 Run-length coding of code lengths: the first half of a dynamic block's header
 (RFC 1951, section 3.2.7).
 */
module CodeLengths {
  import opened Bits
  import opened MergeTree
  import opened MinRedundancy
  import opened InflateSpec
  import opened BlockBits

  const MAX_TO_PACK := 320

  // ---- Operations as stored

  function Stored(op: Op): (s: seq<nat>) {
    match op
    case Plain(l) => [l]
    case Repeat(sym, extra) => [sym, extra]
  }

  ghost function AllStored(ops: seq<Op>): seq<nat> {
    if ops == [] then [] else AllStored(ops[..|ops| - 1]) + Stored(ops[|ops| - 1])
  }

  lemma StoredSnoc(ops: seq<Op>, op: Op)
    ensures AllStored(ops + [op]) == AllStored(ops) + Stored(op)
  {
    assert (ops + [op])[..|ops|] == ops;
  }

  /** Operation `i` is found behind the first `i`. */
  lemma {:induction false} StoredOp(ops: seq<Op>, i: nat)
    requires i < |ops|
    ensures AllStored(ops[..i]) + Stored(ops[i]) <= AllStored(ops)
    ensures AllStored(ops[..i + 1]) == AllStored(ops[..i]) + Stored(ops[i])
  {
    assert ops[..i + 1][..i] == ops[..i];
    if i + 1 < |ops| {
      var k := |ops| - 1;
      StoredOp(ops[..k], i);
      assert ops[..k][..i] == ops[..i];
    } else {
      assert ops[..i + 1] == ops;
    }
  }

  /** How often the operations use code length symbol `sym`. */
  ghost function Uses(ops: seq<Op>, sym: nat): (n: nat)
    ensures n <= |ops|
  {
    if ops == [] then 0 else Uses(ops[..|ops| - 1], sym) + (if OpSym(ops[|ops| - 1]) == sym then 1 else 0)
  }

  lemma UsesSnoc(ops: seq<Op>, op: Op, sym: nat)
    ensures Uses(ops + [op], sym) == Uses(ops, sym) + (if OpSym(op) == sym then 1 else 0)
  {
    assert (ops + [op])[..|ops|] == ops;
  }

  lemma {:induction false} UsedOp(ops: seq<Op>, i: nat)
    requires i < |ops|
    ensures Uses(ops, OpSym(ops[i])) >= 1
  {
    if i < |ops| - 1 {
      UsedOp(ops[..|ops| - 1], i);
      UsesSnoc(ops[..|ops| - 1], ops[|ops| - 1], OpSym(ops[i]));
    }
  }

  // ---- How a run is coded

  ghost function Several(n: nat, op: Op): (ops: seq<Op>)
    ensures |ops| == n && forall i :: 0 <= i < n ==> ops[i] == op
  {
    seq(n, _ => op)
  }

  /** Fewer than 138 zeros: as one operation, or one by one if there are only two. */
  ghost function ZeroRest(n: nat): seq<Op> {
    if n < 3 then Several(n, Plain(0)) else if n <= 10 then [Repeat(17, n - 3)] else [Repeat(18, n - 11)]
  }

  /** Fewer than six repetitions of `x`. */
  ghost function SameRest(x: nat, n: nat): seq<Op> {
    if n < 3 then Several(n, Plain(x)) else [Repeat(16, n - 3)]
  }

  /** A run of `n` code lengths `x`, apart from a rest that is too short for the longest operation. */
  ghost function RunStart(x: nat, n: nat): seq<Op>
    requires n >= 1
  {
    if x == 0 then Several(n / 138, Repeat(18, 127)) else [Plain(x)] + Several((n - 1) / 6, Repeat(16, 3))
  }

  ghost function RunRest(x: nat, n: nat): seq<Op>
    requires n >= 1
  {
    if x == 0 then ZeroRest(n % 138) else SameRest(x, (n - 1) % 6)
  }

  /** How long the run at the end of `s` is. */
  ghost function LastRun(s: seq<nat>): (n: nat)
    requires s != []
    ensures 1 <= n <= |s| && forall i :: |s| - n <= i < |s| ==> s[i] == s[|s| - 1]
    ensures n < |s| ==> s[|s| - n - 1] != s[|s| - 1]
  {
    var m := |s| - 1;
    if m > 0 && s[m - 1] == s[m] then LastRun(s[..m]) + 1 else 1
  }

  /** Run by run, each as long as it can be. */
  ghost function Packing(s: seq<nat>): seq<Op>
    decreases |s|
  {
    if s == [] then []
    else
      var x, n := s[|s| - 1], LastRun(s);
      Packing(s[..|s| - n]) + RunStart(x, n) + RunRest(x, n)
  }

  /** The last run of `s` is of `n` code lengths `x`, behind `before`. */
  ghost predicate EndsInRun(s: seq<nat>, before: seq<nat>, x: nat, n: nat) {
    (s != [] && x == s[|s| - 1] && n == LastRun(s) && before == s[..|s| - n]) == true
  }

  /** A run goes on. */
  lemma RunGoesOn(s: seq<nat>, before: seq<nat>, x: nat, n: nat)
    requires EndsInRun(s, before, x, n)
    ensures EndsInRun(s + [x], before, x, n + 1)
  {
    assert (s + [x])[..|s|] == s;
    assert (s + [x])[..|s + [x]| - (n + 1)] == s[..|s| - n];
  }

  /** A new run starts. */
  lemma RunStarts(s: seq<nat>, x: nat)
    requires s == [] || s[|s| - 1] != x
    ensures EndsInRun(s + [x], s, x, 1)
  {
    assert (s + [x])[..|s|] == s;
  }

  /** One more code length either waits or completes an operation. */
  lemma RunStartGrows(x: nat, n: nat)
    requires n >= 1
    ensures RunStart(x, 1) == if x == 0 then [] else [Plain(x)]
    ensures x == 0 ==> RunStart(x, n + 1) == RunStart(x, n) + if n % 138 == 137 then [Repeat(18, 127)] else []
    ensures x != 0 ==> RunStart(x, n + 1) == RunStart(x, n) + if (n - 1) % 6 == 5 then [Repeat(16, 3)] else []
  {
    NextRest(n, 138);
    NextRest(n - 1, 6);
    if x == 0 {
      SeveralGrow(n / 138, (n + 1) / 138, Repeat(18, 127));
    } else {
      SeveralGrow((n - 1) / 6, n / 6, Repeat(16, 3));
      Regroup([Plain(x)], Several((n - 1) / 6, Repeat(16, 3)), if (n - 1) % 6 == 5 then [Repeat(16, 3)] else []);
    }
  }

  lemma NextRest(n: nat, k: nat)
    requires k >= 2
    ensures (n + 1) % k == if n % k == k - 1 then 0 else n % k + 1
    ensures (n + 1) / k == if n % k == k - 1 then n / k + 1 else n / k
  {
    var q, r := n / k, n % k;
    if r == k - 1 {
      assert n + 1 == k * (q + 1) + 0 by {
        assert k * (q + 1) == k * q + k;
      }
      DivModUnique(n + 1, k, q + 1, 0);
    } else {
      DivModUnique(n + 1, k, q, r + 1);
    }
  }

  lemma SeveralGrow(m: nat, m': nat, op: Op)
    requires m <= m' <= m + 1
    ensures Several(m', op) == Several(m, op) + if m' == m + 1 then [op] else []
  {
  }

  /** All of `seen` is packed but the rest of its last run, which is still counted; kept closed. */
  ghost predicate PackedSoFar(ops: seq<Op>, seen: seq<nat>, zeros: nat, repeats: nat) {
    forall k {:trigger Shown(seen, k)} :: Shown(seen, k) ==>
      if seen == [] then ops == [] && zeros == repeats == 0
      else exists before, x, n: nat :: EndsInRun(seen, before, x, n) && PackedRun(ops, before, x, n, zeros, repeats)
  }

  ghost predicate PackedRun(ops: seq<Op>, before: seq<nat>, x: nat, n: nat, zeros: nat, repeats: nat) {
    (&& n >= 1 && ops == Packing(before) + RunStart(x, n)
     && (if x == 0 then zeros == n % 138 && repeats == 0 else repeats == (n - 1) % 6 && zeros == 0)) == true
  }

  /** What the counters stand for. */
  ghost function StillCounted(x: nat, zeros: nat, repeats: nat): seq<Op> {
    if repeats > 0 then SameRest(x, repeats) else ZeroRest(zeros)
  }

  lemma AllPacked(ops: seq<Op>, seen: seq<nat>, zeros: nat, repeats: nat, prev: nat)
    requires PackedSoFar(ops, seen, zeros, repeats) && (seen != [] ==> prev == seen[|seen| - 1])
    ensures ops + StillCounted(prev, zeros, repeats) == Packing(seen)
    ensures seen == [] || prev != 0 ==> zeros == 0
  {
    assert Shown(seen, 0);
    if seen == [] {
      assert StillCounted(prev, zeros, repeats) == [] && ops + [] == ops;
    } else {
      var before, x, n: nat :| EndsInRun(seen, before, x, n) && PackedRun(ops, before, x, n, zeros, repeats);
      PackingEnds(seen, before, x, n);
      CountersAre(ops, before, x, n, zeros, repeats);
    }
  }

  lemma PackingEnds(s: seq<nat>, before: seq<nat>, x: nat, n: nat)
    requires EndsInRun(s, before, x, n) && n >= 1
    ensures Packing(s) == Packing(before) + RunStart(x, n) + RunRest(x, n)
  {
  }

  lemma CountersAre(ops: seq<Op>, before: seq<nat>, x: nat, n: nat, zeros: nat, repeats: nat)
    requires PackedRun(ops, before, x, n, zeros, repeats)
    ensures StillCounted(x, zeros, repeats) == RunRest(x, n)
  {
  }

  /** Another zero in a run of zeros. */
  lemma OneMoreZero(ops: seq<Op>, seen: seq<nat>, zeros: nat, repeats: nat)
    requires seen != [] && seen[|seen| - 1] == 0 && PackedSoFar(ops, seen, zeros, repeats)
    ensures repeats == 0 && zeros < 138
    ensures zeros + 1 < 138 ==> PackedSoFar(ops, seen + [0], zeros + 1, 0)
    ensures zeros + 1 == 138 ==> PackedSoFar(ops + [Repeat(18, 127)], seen + [0], 0, 0)
  {
    assert Shown(seen, 0);
    var before, x, n: nat :| EndsInRun(seen, before, x, n) && PackedRun(ops, before, x, n, zeros, repeats);
    RunGoesOn(seen, before, 0, n);
    NextRest(n, 138);
    if zeros + 1 == 138 {
      NextInRun(ops, before, 0, n, [Repeat(18, 127)]);
      assert PackedRun(ops + [Repeat(18, 127)], before, 0, n + 1, 0, 0);
    } else {
      NextInRun(ops, before, 0, n, []);
      assert PackedRun(ops, before, 0, n + 1, zeros + 1, 0);
    }
  }

  lemma NextInRun(ops: seq<Op>, before: seq<nat>, x: nat, n: nat, more: seq<Op>)
    requires n >= 1 && ops == Packing(before) + RunStart(x, n)
    requires more == if x == 0 then if n % 138 == 137 then [Repeat(18, 127)] else []
                     else if (n - 1) % 6 == 5 then [Repeat(16, 3)] else []
    ensures ops + more == Packing(before) + RunStart(x, n + 1)
    ensures more == [] ==> ops == Packing(before) + RunStart(x, n + 1)
  {
    RunStartGrows(x, n);
    Regroup(Packing(before), RunStart(x, n), more);
    assert ops + [] == ops;
  }

  /** With one more repetition, `seen` is packed but the rest of its last run. */
  ghost predicate PackedWithOneMore(ops: seq<Op>, seen: seq<nat>, repeats: nat) {
    (if repeats + 1 == 6 then PackedSoFar(ops + [Repeat(16, 3)], seen, 0, 0)
     else PackedSoFar(ops, seen, 0, repeats + 1)) == true
  }

  lemma OneMoreRepeat(ops: seq<Op>, seen: seq<nat>, x: nat, zeros: nat, repeats: nat)
    requires seen != [] && x != 0 && seen[|seen| - 1] == x && PackedSoFar(ops, seen, zeros, repeats)
    ensures zeros == 0 && repeats < 6 && PackedWithOneMore(ops, seen + [x], repeats)
  {
    assert Shown(seen, 0);
    var before, y, n: nat :| EndsInRun(seen, before, y, n) && PackedRun(ops, before, y, n, zeros, repeats);
    RunGoesOn(seen, before, x, n);
    NextRest(n - 1, 6);
    if repeats + 1 == 6 {
      NextInRun(ops, before, x, n, [Repeat(16, 3)]);
      assert PackedRun(ops + [Repeat(16, 3)], before, x, n + 1, 0, 0);
    } else {
      NextInRun(ops, before, x, n, []);
      assert PackedRun(ops, before, x, n + 1, 0, repeats + 1);
    }
  }

  /** The first of a run. */
  lemma FirstOfRun(ops: seq<Op>, seen: seq<nat>, x: nat)
    requires ops == Packing(seen) && (seen == [] || seen[|seen| - 1] != x)
    ensures x == 0 ==> PackedSoFar(ops, seen + [x], 1, 0)
    ensures x != 0 ==> PackedSoFar(ops + [Plain(x)], seen + [x], 0, 0)
  {
    RunStarts(seen, x);
    RunStartGrows(x, 1);
    if x == 0 {
      assert ops + [] == ops;
      assert PackedRun(ops, seen, 0, 1, 1, 0);
    } else {
      assert PackedRun(ops + [Plain(x)], seen, x, 1, 0, 0);
    }
  }

  // ---- The packer

  /** `packed_code_sizes`, the two run counters and the counts of the code length symbols. */
  class Packer {
    const packed: array<nat>
    const count: array<U16>
    var n: nat
    var zeros: nat
    var repeats: nat
    var prev: nat
    ghost var ops: seq<Op>
    ghost var packedSizes: seq<nat>

    ghost predicate Shape()
      reads this
    {
      packed.Length == MAX_TO_PACK && count.Length >= MAX_CODE_LENGTHS && packed as object != count as object
    }

    /** `packed[..n]` and `count` describe the operations, and these stand for `packedSizes`. */
    ghost predicate Holds()
      reads this, packed, count
    {
      // Written as an equation so that the verifier treats it as one fact.
      (&& Shape() && n <= |packedSizes| <= MAX_TO_PACK && |ops| <= |packedSizes|
       && OpsOk(ops, []) && Unpack([], ops) == packedSizes
       && packed[..n] == AllStored(ops)
       && (forall sym :: 0 <= sym < MAX_CODE_LENGTHS ==> count[sym] == Uses(ops, sym))
       && Sum(count[..MAX_CODE_LENGTHS]) == |ops|) == true
    }

    /** Code lengths seen but not packed yet. */
    ghost function Pending(): (s: seq<nat>)
      reads this
    {
      Run(zeros, 0) + Run(repeats, prev)
    }

    ghost predicate Valid()
      reads this, packed, count
    {
      && Holds()
      && zeros < 138 && repeats < 6 && (zeros == 0 || repeats == 0)
      && (repeats > 0 ==> 0 < prev < 16 && packedSizes != [] && packedSizes[|packedSizes| - 1] == prev)
    }

    constructor (count: array<U16>)
      requires count.Length >= MAX_CODE_LENGTHS && forall i :: 0 <= i < MAX_CODE_LENGTHS ==> count[i] == 0
      ensures Valid() && Pending() == [] && packedSizes == [] && ops == [] && this.count == count && fresh(packed)
          && prev == 0xFF
    {
      packed := new nat[MAX_TO_PACK];
      this.count := count;
      n, zeros, repeats, prev, ops, packedSizes := 0, 0, 0, 0xFF, [], [];
      new;
      SumZero(count[..MAX_CODE_LENGTHS]);
    }

    /** Counts symbol `sym` of an operation being stored. */
    method Count(ghost op: Op, sym: nat)
      requires Holds() && OpSym(op) == sym < MAX_CODE_LENGTHS && |ops| < MAX_TO_PACK
      modifies count
      ensures forall s :: 0 <= s < MAX_CODE_LENGTHS ==> count[s] == Uses(ops + [op], s)
      ensures Sum(count[..MAX_CODE_LENGTHS]) == |ops| + 1
    {
      ghost var before := count[..MAX_CODE_LENGTHS];
      assert before[sym] == Uses(ops, sym);
      SumUpdate(before, sym, before[sym] + 1);
      count[sym] := count[sym] + 1;
      assert count[..MAX_CODE_LENGTHS] == before[sym := before[sym] + 1];
      forall s | 0 <= s < MAX_CODE_LENGTHS ensures count[s] == Uses(ops + [op], s) {
        UsesSnoc(ops, op, s);
        assert before[s] == Uses(ops, s);
      }
    }

    /** Stores a code length as itself. */
    method PackPlain(l: nat)
      requires Holds() && l < 16 && |packedSizes| < MAX_TO_PACK
      modifies this`n, this`ops, this`packedSizes, packed, count
      ensures Holds() && packedSizes == old(packedSizes) + [l] && ops == old(ops) + [Op.Plain(l)]
    {
      ghost var op := Op.Plain(l);
      Count(op, l);
      UnpackSnoc([], ops, op);
      StoredSnoc(ops, op);
      packed[n] := l;
      n := n + 1;
      ops := ops + [op];
      packedSizes := packedSizes + [l];
    }

    /** Stores a run. */
    method PackRun(sym: nat, extra: nat)
      requires Holds() && OpOk(Op.Repeat(sym, extra), packedSizes)
          && |packedSizes| + RepeatBase(sym) + extra <= MAX_TO_PACK
      modifies this`n, this`ops, this`packedSizes, packed, count
      ensures Holds() && packedSizes == Do(old(packedSizes), Op.Repeat(sym, extra))
      ensures ops == old(ops) + [Op.Repeat(sym, extra)]
    {
      ghost var op := Op.Repeat(sym, extra);
      Count(op, sym);
      UnpackSnoc([], ops, op);
      StoredSnoc(ops, op);
      PutTwo(sym, extra);
      ops := ops + [op];
      packedSizes := Do(packedSizes, op);
    }

    method PutTwo(a: nat, b: nat)
      requires n + 2 <= packed.Length
      modifies this`n, packed
      ensures n == old(n) + 2 && packed[..n] == old(packed[..n]) + [a, b]
    {
      packed[n], packed[n + 1] := a, b;
      n := n + 2;
    }

    /** Stores a short run as plain code lengths. */
    method PackPlains(l: nat, k: nat)
      requires Holds() && l < 16 && |packedSizes| + k <= MAX_TO_PACK
      modifies this`n, this`ops, this`packedSizes, packed, count
      ensures Holds() && packedSizes == old(packedSizes) + Run(k, l) && ops == old(ops) + Several(k, Op.Plain(l))
    {
      var i: nat := 0;
      ghost var ops0, sizes0 := ops, packedSizes;
      while i < k
        invariant i <= k && Holds() && packedSizes == sizes0 + Run(i, l) && ops == ops0 + Several(i, Op.Plain(l))
      {
        OneMorePlain(ops0, sizes0, i, l);
        PackPlain(l);
        i := i + 1;
      }
    }

    static lemma OneMorePlain(ops: seq<Op>, sizes: seq<nat>, i: nat, l: nat)
      ensures sizes + Run(i + 1, l) == sizes + Run(i, l) + [l]
      ensures ops + Several(i + 1, Op.Plain(l)) == ops + Several(i, Op.Plain(l)) + [Op.Plain(l)]
    {
    }

    /** `TDEFL_RLE_PREV_CODE_SIZE` */
    method RlePrev()
      requires Holds() && |packedSizes| + repeats <= MAX_TO_PACK && repeats < 6
      requires repeats > 0 ==> 0 < prev < 16 && packedSizes != [] && packedSizes[|packedSizes| - 1] == prev
      modifies this`n, this`ops, this`packedSizes, this`repeats, packed, count
      ensures Holds() && repeats == 0 && packedSizes == old(packedSizes) + Run(old(repeats), prev)
      ensures ops == old(ops) + SameRest(prev, old(repeats))
    {
      Pow2Values();
      assert Pow2(2) == 4;
      if repeats > 0 {
        if repeats < 3 {
          PackPlains(prev, repeats);
        } else {
          PackRun(16, repeats - 3);
        }
        SetRepeats(0);
      }
    }

    /** `TDEFL_RLE_ZERO_CODE_SIZE` */
    method RleZero()
      requires Holds() && zeros <= 138 && |packedSizes| + zeros <= MAX_TO_PACK
      modifies this`n, this`ops, this`packedSizes, this`zeros, packed, count
      ensures Holds() && zeros == 0 && packedSizes == old(packedSizes) + Run(old(zeros), 0)
      ensures ops == old(ops) + ZeroRest(old(zeros))
    {
      assert ZeroRest(0) == [] && ops + [] == ops && packedSizes + Run(0, 0) == packedSizes;
      if zeros > 0 {
        PackZeros(zeros);
        SetZeros(0);
      }
    }

    static lemma ZeroOp(sizes: seq<nat>, k: nat)
      requires 1 <= k <= 138
      ensures 3 <= k <= 10 ==> OpOk(Op.Repeat(17, k - 3), sizes)
                               && Do(sizes, Op.Repeat(17, k - 3)) == sizes + Run(k, 0)
      ensures k > 10 ==> OpOk(Op.Repeat(18, k - 11), sizes) && Do(sizes, Op.Repeat(18, k - 11)) == sizes + Run(k, 0)
    {
      Pow2Values();
      assert Pow2(3) == 8 && Pow2(7) == 128;
    }

    /** A run of zeros in the shortest form there is. */
    method PackZeros(k: nat)
      requires Holds() && 1 <= k <= 138 && |packedSizes| + k <= MAX_TO_PACK
      modifies this`n, this`ops, this`packedSizes, packed, count
      ensures Holds() && packedSizes == old(packedSizes) + Run(k, 0) && ops == old(ops) + ZeroRest(k)
    {
      if k < 3 {
        PackPlains(0, k);
      } else {
        PackLongRun(k);
      }
    }

    method PackLongRun(k: nat)
      requires Holds() && 3 <= k <= 138 && |packedSizes| + k <= MAX_TO_PACK
      modifies this`n, this`ops, this`packedSizes, packed, count
      ensures Holds() && packedSizes == old(packedSizes) + Run(k, 0) && ops == old(ops) + ZeroRest(k)
    {
      ZeroOp(packedSizes, k);
      if k <= 10 {
        PackRun(17, k - 3);
      } else {
        PackRun(18, k - 11);
      }
    }

    /** What `prev` remembers of the lengths seen so far. */
    ghost predicate Remembers(seen: seq<nat>)
      reads this
    {
      && (seen == packedSizes + Pending() && prev == if seen == [] then 0xFF else seen[|seen| - 1]) == true
      && PackedSoFar(ops, seen, zeros, repeats)
    }

    /** One turn of the packing loop. */
    method Add(size: nat, ghost seen: seq<nat>)
      requires Valid() && size < 16 && Remembers(seen) && |seen| < MAX_TO_PACK
      modifies this`n, this`ops, this`packedSizes, this`zeros, this`repeats, this`prev, packed, count
      ensures Valid() && Remembers(seen + [size])
    {
      if size == 0 {
        AddZero(seen);
      } else {
        AddNonZero(size, seen);
      }
    }

    method AddZero(ghost seen: seq<nat>)
      requires Valid() && Remembers(seen) && |seen| < MAX_TO_PACK
      modifies this`n, this`ops, this`packedSizes, this`zeros, this`repeats, this`prev, packed, count
      ensures Valid() && Remembers(seen + [0])
    {
      PackRepeats(seen);
      CountZero(seen);
      prev := 0;
    }

    /** Zeros that are counted, behind everything that is packed. */
    ghost predicate CountingZeros(seen: seq<nat>)
      reads this
    {
      repeats == 0 && Zeros(seen, ops, packedSizes, zeros)
    }

    static ghost predicate Zeros(seen: seq<nat>, ops: seq<Op>, sizes: seq<nat>, zeros: nat) {
      (&& zeros < 138 && seen == sizes + Run(zeros, 0)
       && if seen != [] && seen[|seen| - 1] == 0 then PackedSoFar(ops, seen, zeros, 0)
          else zeros == 0 && ops == Packing(seen)) == true
    }

    method PackRepeats(ghost seen: seq<nat>)
      requires Valid() && Remembers(seen) && |seen| < MAX_TO_PACK
      modifies this`n, this`ops, this`packedSizes, this`repeats, packed, count
      ensures Holds() && CountingZeros(seen) && prev == old(prev)
    {
      OnlyZeros(seen, ops, packedSizes, zeros, repeats, prev);
      RlePrev();
    }

    static lemma OnlyZeros(seen: seq<nat>, ops: seq<Op>, sizes: seq<nat>, zeros: nat, repeats: nat, prev: nat)
      requires PackedSoFar(ops, seen, zeros, repeats) && zeros < 138 && (zeros == 0 || repeats == 0)
      requires seen == sizes + (Run(zeros, 0) + Run(repeats, prev))
      requires prev == if seen == [] then 0xFF else seen[|seen| - 1]
      ensures Zeros(seen, ops + SameRest(prev, repeats), sizes + Run(repeats, prev), zeros)
    {
      AllPacked(ops, seen, zeros, repeats, prev);
      NoRest(ops, prev, zeros, repeats);
      if prev == 0 {
        OneMoreZero(ops, seen, zeros, repeats);
        assert sizes + Run(0, prev) == sizes;
      } else {
        assert sizes + Run(repeats, prev) + Run(0, 0) == seen;
      }
    }

    static lemma NoRest(ops: seq<Op>, x: nat, zeros: nat, repeats: nat)
      ensures repeats == 0 ==> ops + SameRest(x, repeats) == ops
      ensures zeros == 0 ==> ops + StillCounted(x, zeros, repeats) == ops + SameRest(x, repeats)
    {
      assert ZeroRest(0) == [] && SameRest(x, 0) == [];
    }

    method CountZero(ghost seen: seq<nat>)
      requires Holds() && CountingZeros(seen) && |seen| < MAX_TO_PACK
      modifies this`n, this`ops, this`packedSizes, this`zeros, packed, count
      ensures Holds() && repeats == 0 && zeros < 138 && seen + [0] == packedSizes + Run(zeros, 0)
      ensures PackedSoFar(ops, seen + [0], zeros, 0)
    {
      if seen != [] && seen[|seen| - 1] == 0 {
        OneMoreZero(ops, seen, zeros, 0);
      } else {
        FirstOfRun(ops, seen, 0);
      }
      OneMorePlain([], packedSizes, zeros, 0);
      SetZeros(zeros + 1);
      if zeros == 138 {
        FlushZeros();
      }
    }

    method FlushZeros()
      requires Holds() && zeros == 138 && |packedSizes| + zeros <= MAX_TO_PACK
      modifies this`n, this`ops, this`packedSizes, this`zeros, packed, count
      ensures Holds() && zeros == 0 && packedSizes + Run(0, 0) == old(packedSizes + Run(zeros, 0))
      ensures ops == old(ops) + [Op.Repeat(18, 127)]
    {
      RleZero();
    }

    method AddNonZero(size: nat, ghost seen: seq<nat>)
      requires Valid() && 1 <= size < 16 && Remembers(seen) && |seen| < MAX_TO_PACK
      modifies this`n, this`ops, this`packedSizes, this`zeros, this`repeats, this`prev, packed, count
      ensures Valid() && Remembers(seen + [size])
    {
      if size != prev {
        NewSize(size, seen);
      } else {
        AddSame(seen);
      }
      prev := size;
    }

    lemma LastIsPacked(seen: seq<nat>)
      requires Valid() && Remembers(seen) && seen != [] && prev != 0
      ensures zeros == 0 && packedSizes != [] && packedSizes[|packedSizes| - 1] == prev
      ensures seen + [prev] == packedSizes + Run(repeats + 1, prev)
    {
      assert seen[|seen| - 1] == prev;
    }

    method NewSize(size: nat, ghost seen: seq<nat>)
      requires Valid() && 1 <= size < 16 && Remembers(seen) && |seen| < MAX_TO_PACK && size != prev
      modifies this`n, this`ops, this`packedSizes, this`zeros, this`repeats, packed, count
      ensures Holds() && zeros == repeats == 0 && packedSizes == seen + [size]
      ensures PackedSoFar(ops, seen + [size], 0, 0)
    {
      PackAll(seen);
      FirstOfRun(ops, seen, size);
      PackPlain(size);
    }

    /** Both counters are emptied; one of them holds nothing. */
    method PackAll(ghost seen: seq<nat>)
      requires Valid() && Remembers(seen) && |seen| <= MAX_TO_PACK
      modifies this`n, this`ops, this`packedSizes, this`zeros, this`repeats, packed, count
      ensures Holds() && zeros == repeats == 0 && packedSizes == seen && ops == Packing(seen)
    {
      ghost var ops0, sizes0, zeros0, repeats0 := ops, packedSizes, zeros, repeats;
      RleZero();
      RlePrev();
      AllPacked(ops0, seen, zeros0, repeats0, prev);
      OneIsEmpty(ops0, zeros0, repeats0, prev);
      Regroup(sizes0, Run(zeros0, 0), Run(repeats0, prev));
    }

    lemma OneIsEmpty(ops0: seq<Op>, zeros0: nat, repeats0: nat, x: nat)
      requires zeros0 == 0 || repeats0 == 0
      ensures ops0 + ZeroRest(zeros0) + SameRest(x, repeats0) == ops0 + StillCounted(x, zeros0, repeats0)
    {
      assert ZeroRest(0) == [] && SameRest(x, 0) == [];
    }

    /** The same code length again. */
    method AddSame(ghost seen: seq<nat>)
      requires Valid() && 1 <= prev < 16 && Remembers(seen) && |seen| < MAX_TO_PACK && seen != []
      modifies this`n, this`ops, this`packedSizes, this`zeros, this`repeats, packed, count
      ensures Valid() && packedSizes + Pending() == seen + [prev]
      ensures PackedSoFar(ops, seen + [prev], zeros, repeats)
    {
      Ready(seen);
      NoZeros();
      SameSize(seen);
    }

    /** What there is before a code length is repeated once more. */
    ghost predicate SameReady(seen: seq<nat>)
      reads this
    {
      (&& zeros == 0 && repeats < 6 && |packedSizes| + repeats < MAX_TO_PACK
       && 0 < prev < 16 && packedSizes != [] && packedSizes[|packedSizes| - 1] == prev
       && PackedWithOneMore(ops, seen + [prev], repeats)
       && seen + [prev] == packedSizes + Run(repeats + 1, prev)) == true
    }

    lemma Ready(seen: seq<nat>)
      requires Valid() && 1 <= prev < 16 && Remembers(seen) && |seen| < MAX_TO_PACK && seen != []
      ensures SameReady(seen)
    {
      LastIsPacked(seen);
      OneMoreRepeat(ops, seen, prev, zeros, repeats);
    }

    /** `TDEFL_RLE_ZERO_CODE_SIZE` with no zeros counted. */
    method NoZeros()
      requires Holds() && zeros == 0 && |packedSizes| <= MAX_TO_PACK
      modifies this`n, this`ops, this`packedSizes, this`zeros, packed, count
      ensures Holds() && zeros == 0 && ops == old(ops) && packedSizes == old(packedSizes)
    {
      RleZero();
      assert ZeroRest(0) == [];
    }

    method SameSize(ghost seen: seq<nat>)
      requires Holds() && SameReady(seen)
      modifies this`n, this`ops, this`packedSizes, this`repeats, packed, count
      ensures Valid() && packedSizes + Pending() == seen + [prev] && PackedSoFar(ops, seen + [prev], zeros, repeats)
    {
      SetRepeats(repeats + 1);
      if repeats == 6 {
        CompleteSix(seen);
      } else {
        StillRepeating(seen);
      }
    }

    lemma StillRepeating(seen: seq<nat>)
      requires Holds() && zeros == 0 && 1 <= repeats < 6 && 0 < prev < 16
      requires packedSizes != [] && packedSizes[|packedSizes| - 1] == prev
      requires seen + [prev] == packedSizes + Run(repeats, prev)
      ensures Valid() && packedSizes + Pending() == seen + [prev]
    {
      NoZerosFirst(repeats, prev);
    }

    method SetRepeats(r: nat)
      requires Holds()
      modifies this`repeats
      ensures Holds() && repeats == r
    {
      repeats := r;
    }

    method SetZeros(z: nat)
      requires Holds()
      modifies this`zeros
      ensures Holds() && zeros == z
    {
      zeros := z;
    }

    method CompleteSix(ghost seen: seq<nat>)
      requires Holds() && zeros == 0 && repeats == 6 && |packedSizes| + repeats <= MAX_TO_PACK && 0 < prev < 16
      requires packedSizes != [] && packedSizes[|packedSizes| - 1] == prev
      requires PackedSoFar(ops + [Op.Repeat(16, 3)], seen + [prev], 0, 0) && seen + [prev] == packedSizes + Run(6, prev)
      modifies this`n, this`ops, this`packedSizes, this`repeats, packed, count
      ensures Valid() && packedSizes + Pending() == seen + [prev] && PackedSoFar(ops, seen + [prev], zeros, repeats)
    {
      SixMore(packedSizes, prev);
      NoZerosFirst(0, prev);
      FlushSix();
    }

    static lemma NoZerosFirst(n: nat, x: nat)
      ensures Run(0, 0) + Run(n, x) == Run(n, x)
    {
    }

    static lemma SixMore(sizes: seq<nat>, x: nat)
      ensures var s := sizes + Run(6, x); s != [] && s[|s| - 1] == x && s + Run(0, x) == s
    {
    }

    method FlushSix()
      requires Holds() && repeats == 6 && |packedSizes| + repeats <= MAX_TO_PACK
      requires 0 < prev < 16 && packedSizes != [] && packedSizes[|packedSizes| - 1] == prev
      modifies this`n, this`ops, this`packedSizes, this`repeats, packed, count
      ensures Holds() && repeats == 0 && packedSizes == old(packedSizes + Run(repeats, prev))
      ensures ops == old(ops) + [Op.Repeat(16, 3)]
    {
      assert Pow2(2) == 4;
      PackRun(16, 3);
      SetRepeats(0);
    }

    /** What is left after the last code length. */
    method Finish(ghost seen: seq<nat>)
      requires Valid() && Remembers(seen) && |seen| <= MAX_TO_PACK
      modifies this`n, this`ops, this`packedSizes, this`zeros, this`repeats, packed, count
      ensures Holds() && packedSizes == seen && ops == Packing(seen)
    {
      AllPacked(ops, seen, zeros, repeats, prev);
      if repeats > 0 {
        RlePrev();
      } else {
        RleZero();
      }
    }
  }

  /** Packs a whole list of code lengths; unpacking the operations gives it back. */
  method Pack(sizes: array<nat>, total: nat, count: array<U16>) returns (p: Packer)
    requires total <= sizes.Length && total <= MAX_TO_PACK && forall i :: 0 <= i < total ==> sizes[i] < 16
    requires count.Length >= MAX_CODE_LENGTHS && count as object != sizes as object
    requires forall i :: 0 <= i < MAX_CODE_LENGTHS ==> count[i] == 0
    modifies count
    ensures fresh(p) && fresh(p.packed) && p.count == count && p.Holds() && p.packedSizes == sizes[..total]
    ensures p.ops == Packing(sizes[..total])
  {
    p := new Packer(count);
    for i := 0 to total
      invariant fresh(p) && fresh(p.packed) && p.count == count
      invariant p.Valid() && p.Remembers(sizes[..i])
      invariant forall k :: 0 <= k < total ==> sizes[k] < 16
      invariant sizes[..total] == old(sizes[..total])
    {
      assert sizes[..i + 1] == sizes[..i] + [sizes[i]];
      p.Add(sizes[i], sizes[..i]);
    }
    p.Finish(sizes[..total]);
  }
}
