/**
 Writing one compressed block: the code tables, the header of a dynamic block and
 the recorded tokens.
 */
module BlockWriter {
  import opened Bits
  import opened MergeTree
  import opened MinRedundancy
  import opened Canonical
  import HuffTable
  import RadixSort
  import opened DecodeTable
  import opened Tokens
  import opened InflateSpec
  import opened BlockBits
  import opened CodeLengths
  import BitWriter
  import opened LzBuffer

  const LIT_SYMS := 288
  const DIST_SYMS := 32
  const CL_SYMS := 19

  ghost predicate Foreign(a: object, t: HuffTable.Table) {
    (a != t.count as object && a != t.codes as object && a != t.sizes as object) == true
  }

  ghost predicate TablesApart(s: HuffTable.Table, t: HuffTable.Table) {
    (Foreign(s.count, t) && Foreign(s.codes, t) && Foreign(s.sizes, t)) == true
  }

  ghost predicate Outside(a: object, w: BitWriter.Writer, lz: LzBuffer.Buffer, lit: HuffTable.Table,
                          dist: HuffTable.Table, cl: HuffTable.Table) {
    (Foreign(a, lit) && Foreign(a, dist) && Foreign(a, cl)
     && a != w as object && a != lz as object && a != w.out as object && a != lz.buf as object) == true
  }

  method NewTables() returns (lit: HuffTable.Table, dist: HuffTable.Table, cl: HuffTable.Table)
    ensures fresh(lit) && fresh(dist) && fresh(cl)
    ensures fresh(lit.count) && fresh(lit.codes) && fresh(lit.sizes)
    ensures fresh(dist.count) && fresh(dist.codes) && fresh(dist.sizes)
    ensures fresh(cl.count) && fresh(cl.codes) && fresh(cl.sizes)
    ensures lit.Valid() && dist.Valid() && cl.Valid()
    ensures TablesApart(lit, dist) && TablesApart(lit, cl) && TablesApart(dist, cl)
    ensures forall i :: 0 <= i < HuffTable.MAX_SYMBOLS ==> lit.count[i] == dist.count[i] == 0
  {
    lit := new HuffTable.Table();
    dist := new HuffTable.Table();
    cl := new HuffTable.Table();
  }

  class Blocks {
    const w: BitWriter.Writer
    const lz: LzBuffer.Buffer
    const lit: HuffTable.Table
    const dist: HuffTable.Table
    const cl: HuffTable.Table
    // The dictionary and its hash chains live beside these.
    const dict: array<Byte>
    const next: array<U16>
    const hash: array<U16>

    // Tells the parts apart: no two of them share an array, except that tokens are counted in the tables.
    ghost const id: map<object, nat>

    // Everything that writing a block may change.
    ghost const parts: set<object>

    /** What `parts` holds, kept closed. */
    ghost predicate PartsAre() {
      forall k {:trigger Shown(this, k)} :: Shown(this, k) ==>
        parts == {w as object, w.out as object, lz as object, lz.buf as object,
                  lit.count as object, lit.codes as object, lit.sizes as object,
                  dist.count as object, dist.codes as object, dist.sizes as object,
                  cl.count as object, cl.codes as object, cl.sizes as object}
    }

    ghost predicate Is(o: object, n: nat) {
      o in id && id[o] == n
    }

    ghost predicate Separate() {
      (&& lit.Valid() && dist.Valid() && cl.Valid() && lz.litCount == lit.count && lz.distCount == dist.count
       && Is(w, 1) && Is(w.out, 2) && Is(lz, 3) && Is(lz.buf, 4)
       && Is(lit.count, 5) && Is(lit.codes, 6) && Is(lit.sizes, 7)
       && Is(dist.count, 8) && Is(dist.codes, 9) && Is(dist.sizes, 10)
       && Is(cl.count, 11) && Is(cl.codes, 12) && Is(cl.sizes, 13)
       && Is(dict, 14) && Is(next, 15) && Is(hash, 16)) == true
    }

    constructor (w: BitWriter.Writer, lz: LzBuffer.Buffer, lit: HuffTable.Table, dist: HuffTable.Table,
                 cl: HuffTable.Table,
                 dict: array<Byte>, next: array<U16>, hash: array<U16>)
      requires lit.Valid() && dist.Valid() && cl.Valid() && lz.litCount == lit.count && lz.distCount == dist.count
      requires TablesApart(lit, dist) && TablesApart(lit, cl) && TablesApart(dist, cl)
      requires Foreign(lz.buf, lit) && Foreign(lz.buf, dist) && Foreign(lz.buf, cl)
      requires Foreign(w.out, lit) && Foreign(w.out, dist) && Foreign(w.out, cl) && w.out as object != lz.buf as object
      requires Outside(dict, w, lz, lit, dist, cl) && Outside(next, w, lz, lit, dist, cl)
          && Outside(hash, w, lz, lit, dist, cl)
      requires dict as object != next as object && dict as object != hash as object && next as object != hash as object
      ensures Separate() && this.w == w && this.lz == lz && this.lit == lit && this.dist == dist && this.cl == cl
      ensures this.dict == dict && this.next == next && this.hash == hash
      ensures PartsAre() && dict as object !in parts && next as object !in parts && hash as object !in parts
      ensures forall o :: o in parts ==> allocated(o)
    {
      this.w, this.lz, this.lit, this.dist, this.cl := w, lz, lit, dist, cl;
      this.dict, this.next, this.hash := dict, next, hash;
      parts := {w as object, w.out as object, lz as object, lz.buf as object,
                lit.count as object, lit.codes as object, lit.sizes as object,
                dist.count as object, dist.codes as object, dist.sizes as object,
                cl.count as object, cl.codes as object, cl.sizes as object};
      id := map[
        w as object := 1, w.out as object := 2, lz as object := 3, lz.buf as object := 4,
        lit.count as object := 5, lit.codes as object := 6, lit.sizes as object := 7,
        dist.count as object := 8, dist.codes as object := 9, dist.sizes as object := 10,
        cl.count as object := 11, cl.codes as object := 12, cl.sizes as object := 13,
        dict as object := 14, next as object := 15, hash as object := 16
      ];
    }

    /** The table writes the canonical code of the lengths `lens`. */
    ghost predicate Coded(t: HuffTable.Table, lens: seq<nat>)
      reads t.codes, t.sizes
    {
      (|lens| <= HuffTable.MAX_SYMBOLS && t.Ready(|lens|) && t.sizes[..|lens|] == lens) == true
    }

    /** Writes the code word of one symbol. */
    method PutCode(t: HuffTable.Table, ghost lens: seq<nat>, sym: nat)
      requires w.Valid() && Coded(t, lens) && sym < |lens| && lens[sym] >= 1
      modifies w`pos, w`buffer, w`bitsIn, w`bits, w.out
      ensures w.Valid() && w.bits == old(w.bits) + CodeBits(lens, sym)
    {
      assert HuffTable.StoredAt(lens, t.codes[..], sym);
      assert t.sizes[sym] == lens[sym];
      w.PutBits(t.codes[sym], t.sizes[sym]);
    }

    /** Both tables can write every token. */
    ghost predicate CodesReady(L: seq<nat>, D: seq<nat>)
      reads lit.codes, lit.sizes, dist.codes, dist.sizes
    {
      (Separate() && |L| == LIT_SYMS && |D| == DIST_SYMS && Coded(lit, L) && Coded(dist, D)) == true
    }

    /** Writing bits leaves the codes and the recorded tokens alone. */
    lemma WritingApart()
      requires Separate()
      ensures var o := w.out as object;
              && o != lit.codes as object && o != lit.sizes as object && o != dist.codes as object
              && o != dist.sizes as object && o != lz.buf as object
              && o != cl.count as object && o != cl.codes as object && o != cl.sizes as object
    {
    }

    method PutLength(m: nat, ghost L: seq<nat>, ghost D: seq<nat>)
      requires CodesReady(L, D) && w.Valid() && m < 256 && LenSym(m) < |L| && L[LenSym(m)] >= 1
      modifies w`pos, w`buffer, w`bitsIn, w`bits, w.out
      ensures w.Valid() && CodesReady(L, D) && w.bits == old(w.bits) + LengthField(L, m + MIN_MATCH)
    {
      ghost var b := w.bits;
      PutCode(lit, L, LenSym(m));
      w.PutBits(Low(m, LenExtra(m)), LenExtra(m));
      Regroup(b, CodeBits(L, LenSym(m)), ToBits(Low(m, LenExtra(m)), LenExtra(m)));
    }

    method PutDistance(d: nat, ghost L: seq<nat>, ghost D: seq<nat>)
      requires CodesReady(L, D) && w.Valid() && d < MAX_DIST && DistSym(d) < |D| && D[DistSym(d)] >= 1
      modifies w`pos, w`buffer, w`bitsIn, w`bits, w.out
      ensures w.Valid() && CodesReady(L, D) && w.bits == old(w.bits) + DistField(D, d + 1)
    {
      ghost var b := w.bits;
      PutCode(dist, D, DistSym(d));
      w.PutBits(Low(d, DistExtra(d)), DistExtra(d));
      Regroup(b, CodeBits(D, DistSym(d)), ToBits(Low(d, DistExtra(d)), DistExtra(d)));
    }

    /** Writes a match of length `m + 3` and distance `d + 1`. */
    method PutMatch(m: nat, d: nat, ghost L: seq<nat>, ghost D: seq<nat>)
      requires CodesReady(L, D) && w.Valid() && m < 256 && d < MAX_DIST && Encodable(L, D, Match(m + MIN_MATCH, d + 1))
      modifies w`pos, w`buffer, w`bitsIn, w`bits, w.out
      ensures w.Valid() && CodesReady(L, D) && w.bits == old(w.bits) + TokenBits(L, D, Match(m + MIN_MATCH, d + 1))
    {
      ghost var b := w.bits;
      PutLength(m, L, D);
      PutDistance(d, L, D);
      Regroup(b, LengthField(L, m + MIN_MATCH), DistField(D, d + 1));
    }

    /** The recorded bytes. */
    ghost predicate Recorded(bs: seq<Byte>)
      reads lz`codePos, lz.buf
    {
      (lz.codePos <= lz.buf.Length && lz.buf[..lz.codePos] == bs) == true
    }

    method ReadMatch(p: nat, ghost bs: seq<Byte>, ghost t: Token) returns (m: nat, d: nat)
      requires Recorded(bs) && BytesAt(bs, p, t) && t.Match?
      ensures m < 256 && d < MAX_DIST && t == Match(m + MIN_MATCH, d + 1)
    {
      assert bs[p] == lz.buf[p] && bs[p + 1] == lz.buf[p + 1] && bs[p + 2] == lz.buf[p + 2];
      m := lz.buf[p];
      d := lz.buf[p + 1] as nat + 256 * lz.buf[p + 2] as nat;
    }

    /** Writes the token whose bytes start at `p`. */
    method PutToken(p: nat, isMatch: bool, ghost bs: seq<Byte>, ghost t: Token, ghost L: seq<nat>, ghost D: seq<nat>)
      returns (p': nat)
      requires CodesReady(L, D) && w.Valid() && Recorded(bs) && BytesAt(bs, p, t) && isMatch == t.Match?
          && Encodable(L, D, t)
      modifies w`pos, w`buffer, w`bitsIn, w`bits, w.out
      ensures w.Valid() && CodesReady(L, D) && Recorded(bs) && w.bits == old(w.bits) + TokenBits(L, D, t)
      ensures p' == p + |TokenBytes(t)|
    {
      WritingApart();
      if isMatch {
        var m, d := ReadMatch(p, bs, t);
        PutMatch(m, d, L, D);
        p' := p + 3;
      } else {
        assert bs[p] == lz.buf[p];
        PutCode(lit, L, lz.buf[p]);
        p' := p + 1;
      }
    }

    /** Reads a flag byte when the flags have run out. */
    method NeedFlag(p: nat, flags: nat, ghost bs: seq<Byte>, ghost fl: seq<bool>, ghost rest: seq<Token>,
                    ghost left: seq<bool>)
      returns (p': nat, flags': nat, ghost fl': seq<bool>)
      requires Recorded(bs) && Reading(bs, p, flags, fl, rest, left) && p < lz.codePos
      ensures Reading(bs, p', flags', fl', rest, left) && fl' != [] && rest != []
    {
      NextFlags(bs, p, flags, fl, rest, left);
      p', flags', fl' := p, flags, fl;
      if flags == 1 {
        assert bs[p] == lz.buf[p];
        flags' := lz.buf[p] as nat + 256;
        fl' := ToBits(lz.buf[p], 8);
        p' := p + 1;
      }
    }

    /** One turn of the loop. */
    method Turn(p: nat, flags: nat, ghost bs: seq<Byte>, ghost fl: seq<bool>, ghost done: seq<Token>,
                ghost rest: seq<Token>,
                ghost left: seq<bool>, ghost start: seq<bool>, ghost L: seq<nat>, ghost D: seq<nat>,
                    ghost ts: seq<Token>)
      returns (p': nat, flags': nat, ghost fl': seq<bool>, ghost done': seq<Token>, ghost rest': seq<Token>)
      requires CodesReady(L, D) && w.Valid() && Recorded(bs) && Reading(bs, p, flags, fl, rest, left)
      requires Written(w.bits, start, L, D, ts, done, rest) && p < lz.codePos
      modifies w`pos, w`buffer, w`bitsIn, w`bits, w.out
      ensures CodesReady(L, D) && w.Valid() && Recorded(bs) && Reading(bs, p', flags', fl', rest', left)
      ensures Written(w.bits, start, L, D, ts, done', rest') && |rest'| < |rest|
    {
      var isMatch;
      ghost var q;
      p', isMatch, flags', fl', q := NextToken(p, flags, bs, fl, rest, left);
      OneMore(w.bits, start, L, D, ts, done, rest);
      p' := PutToken(p', isMatch, bs, rest[0], L, D);
      assert p' == q;
      done', rest' := done + [rest[0]], rest[1..];
    }

    /** Where the next token is and of which kind. */
    method NextToken(p: nat, flags: nat, ghost bs: seq<Byte>, ghost fl: seq<bool>, ghost rest: seq<Token>,
                     ghost left: seq<bool>)
      returns (p': nat, isMatch: bool, flags': nat, ghost fl': seq<bool>, ghost q: nat)
      requires Recorded(bs) && Reading(bs, p, flags, fl, rest, left) && p < lz.codePos
      ensures rest != [] && BytesAt(bs, p', rest[0]) && isMatch == rest[0].Match?
      ensures q == p' + |TokenBytes(rest[0])| && Reading(bs, q, flags', fl', rest[1..], left)
    {
      p', flags', fl' := NeedFlag(p, flags, bs, fl, rest, left);
      TakeFlag(bs, p', flags', fl', rest, left);
      isMatch := flags' % 2 == 1;
      flags', fl', q := flags' / 2, fl'[1..], p' + |TokenBytes(rest[0])|;
    }

    method PutTokens(ghost L: seq<nat>, ghost D: seq<nat>, ghost bs: seq<Byte>, ghost ts: seq<Token>,
                     ghost left: seq<bool>)
      requires CodesReady(L, D) && w.Valid() && Recorded(bs) && Segment(bs, [], ts, left) && AllEncodable(L, D, ts)
      modifies w`pos, w`buffer, w`bitsIn, w`bits, w.out
      ensures w.Valid() && CodesReady(L, D) && w.bits == old(w.bits) + TokensBits(L, D, ts)
    {
      var flags: nat, p: nat := 1, 0;
      ghost var start := w.bits;
      ghost var fl: seq<bool>, done: seq<Token>, rest := [], [], ts;
      StartReading(bs, ts, left);
      while p < lz.codePos
        invariant CodesReady(L, D) && w.Valid() && Recorded(bs) && Reading(bs, p, flags, fl, rest, left)
        invariant Written(w.bits, start, L, D, ts, done, rest)
        decreases |rest|
      {
        p, flags, fl, done, rest := Turn(p, flags, bs, fl, done, rest, left, start, L, D, ts);
      }
      NextFlags(bs, p, flags, fl, rest, left);
      assert done == ts;
    }

    /** `tdefl_compress_lz_codes` */
    method CompressLzCodes(ghost L: seq<nat>, ghost D: seq<nat>, ghost bs: seq<Byte>, ghost ts: seq<Token>,
                           ghost left: seq<bool>)
      requires CodesReady(L, D) && w.Valid() && Recorded(bs)
      requires Segment(bs, [], ts, left) && AllEncodable(L, D, ts) && L[256] >= 1
      modifies w`pos, w`buffer, w`bitsIn, w`bits, w.out
      ensures w.Valid() && CodesReady(L, D) && Recorded(bs) && w.bits == old(w.bits) + BodyBits(L, D, ts)
    {
      ghost var start := w.bits;
      PutTokens(L, D, bs, ts, left);
      PutCode(lit, L, 256);
      Regroup(start, TokensBits(L, D, ts), CodeBits(L, 256));
    }

    // ---- The code tables

    method StaticTable(t: HuffTable.Table, n: nat, ghost lens: seq<nat>)
      requires t.Valid() && |lens| == n <= HuffTable.MAX_SYMBOLS && t.sizes[..n] == lens && Full(lens)
      modifies t.codes
      ensures Coded(t, lens)
    {
      assert forall i :: 0 <= i < n ==> t.sizes[i] == lens[i];
      t.OptimizeStatic(n, MAX_CODE_SIZE);
      assert t.sizes[..n] == lens;
    }

    method StaticTables(ghost L: seq<nat>, ghost D: seq<nat>)
      requires Separate() && FixedLengths(L, D)
      requires lit.sizes[..LIT_SYMS] == L && dist.sizes[..DIST_SYMS] == D
      modifies lit.codes, dist.codes
      ensures CodesReady(L, D)
    {
      FixedLitFull(L, D);
      FixedDistFull(L, D);
      StaticTable(lit, LIT_SYMS, L);
      assert dist.sizes[..DIST_SYMS] == D;
      StaticTable(dist, DIST_SYMS, D);
    }

    /** `tdefl_start_static_block` */
    method StartStatic() returns (ghost L: seq<nat>, ghost D: seq<nat>)
      requires Separate() && w.Valid()
      modifies w`pos, w`buffer, w`bitsIn, w`bits, w.out, lit.codes, lit.sizes, dist.codes, dist.sizes
      ensures w.Valid() && FixedLengths(L, D) && CodesReady(L, D) && w.bits == old(w.bits) + ToBits(1, 2)
    {
      L, D := FillFixed();
      StaticTables(L, D);
      StartBlock(1);
    }

    /** The two bits that tell the kind of block. */
    method StartBlock(kind: nat)
      requires w.Valid() && kind < 4
      modifies w`pos, w`buffer, w`bitsIn, w`bits, w.out
      ensures w.Valid() && w.bits == old(w.bits) + ToBits(kind, 2)
    {
      assert Pow2(2) == 4;
      w.PutBits(kind, 2);
    }

    method FillFixed() returns (ghost L: seq<nat>, ghost D: seq<nat>)
      requires Separate()
      modifies lit.sizes, dist.sizes
      ensures L == lit.sizes[..LIT_SYMS] && D == dist.sizes[..DIST_SYMS] && FixedLengths(L, D)
    {
      var i: nat := 0;
      while i < LIT_SYMS
        invariant i <= LIT_SYMS && forall k :: 0 <= k < i ==> lit.sizes[k] == FixedSize(k)
      {
        lit.sizes[i] := if i <= 143 then 8 else if i <= 255 then 9 else if i <= 279 then 7 else 8;
        i := i + 1;
      }
      i := 0;
      while i < DIST_SYMS
        invariant i <= DIST_SYMS && forall k :: 0 <= k < i ==> dist.sizes[k] == 5
        invariant forall k :: 0 <= k < LIT_SYMS ==> lit.sizes[k] == FixedSize(k)
      {
        dist.sizes[i] := 5;
        i := i + 1;
      }
      L, D := lit.sizes[..LIT_SYMS], dist.sizes[..DIST_SYMS];
    }

    /** The symbol counts of the recorded tokens. */
    ghost predicate Counted(ts: seq<Token>)
      reads lit.count, dist.count
    {
      (&& Separate() && AllStorable(ts) && |ts| < 0xFFFF
       && CountsLit(lit.count[..LIT_SYMS], ts) && CountsDist(dist.count[..DIST_SYMS], ts)) == true
    }

    /** The literal/length code: end of block occurs once. */
    method BuildLit(ghost ts: seq<Token>, ghost lc: seq<U16>) returns (ghost L: seq<nat>, ghost tl: seq<SymFreq>)
      requires Separate() && AllStorable(ts) && |ts| < 0xFFFF && CountsLit(lc, ts) && lit.count[..LIT_SYMS] == lc
      modifies lit.count, lit.codes, lit.sizes
      ensures |lc| == |L| == LIT_SYMS && Coded(lit, L) && HuffTable.GoodLengths(lc[256 := 1], L, MAX_CODE_SIZE)
      ensures Cheap(lc[256 := 1], L, tl)
    {
      WithEnd(lc, ts);
      lit.count[256] := 1;
      assert lit.count[..LIT_SYMS] == lc[256 := 1];
      Pow2Values();
      tl := lit.Optimize(LIT_SYMS, MAX_CODE_SIZE);
      L := lit.sizes[..LIT_SYMS];
      CheapIs(lc[256 := 1], L, tl);
    }

    method BuildDist(ghost ts: seq<Token>, ghost dc: seq<U16>) returns (ghost D: seq<nat>, ghost td: seq<SymFreq>)
      requires Separate() && AllStorable(ts) && |ts| < 0xFFFF && CountsDist(dc, ts) && dist.count[..DIST_SYMS] == dc
      modifies dist.codes, dist.sizes
      ensures |dc| == |D| == DIST_SYMS && Coded(dist, D) && HuffTable.GoodLengths(dc, D, MAX_CODE_SIZE)
      ensures Cheap(dc, D, td)
    {
      Pow2Values();
      td := dist.Optimize(DIST_SYMS, MAX_CODE_SIZE);
      D := dist.sizes[..DIST_SYMS];
      CheapIs(dc, D, td);
    }

    /** Builds both codes of a dynamic block. */
    method BuildCodes(ghost ts: seq<Token>) returns (ghost L: seq<nat>, ghost D: seq<nat>)
      requires Counted(ts)
      modifies lit.count, lit.codes, lit.sizes, dist.codes, dist.sizes
      ensures CodesReady(L, D) && GoodFor(ts, L, D)
      ensures AllStorable(ts) && CheapFor(ts, L, D)
    {
      ghost var lc, dc := lit.count[..LIT_SYMS], dist.count[..DIST_SYMS];
      ghost var tl, td;
      L, tl := BuildLit(ts, lc);
      assert dist.count[..DIST_SYMS] == dc;
      D, td := BuildDist(ts, dc);
      CodesAreGood(lc, dc, ts, L, D);
      BothCheap(ts, L, D, lc, tl, dc, td);
    }

    lemma BothCheap(ts: seq<Token>, L: seq<nat>, D: seq<nat>, lc: seq<U16>, tl: seq<SymFreq>, dc: seq<U16>,
                    td: seq<SymFreq>)
      requires AllStorable(ts) && CountsLit(lc, ts) && CountsDist(dc, ts) && Cheap(lc[256 := 1], L, tl)
          && Cheap(dc, D, td)
      ensures CheapFor(ts, L, D)
    {
      assert CheapLit(ts, L, lc, tl) && CheapDist(ts, D, dc, td);
    }

    // ---- The header of a dynamic block

    /** `num_lit_codes`, `num_dist_codes`: trailing unused symbols are left out. */
    method TrimCodes(ghost L: seq<nat>, ghost D: seq<nat>) returns (n: nat, k: nat)
      requires CodesReady(L, D) && L[286] == L[287] == 0 && D[30] == D[31] == 0
      ensures Trimmed(n, k, L, D)
    {
      assert forall i :: 0 <= i < LIT_SYMS ==> L[i] == lit.sizes[i];
      assert forall i :: 0 <= i < DIST_SYMS ==> D[i] == dist.sizes[i];
      n := 286;
      while n > 257 && lit.sizes[n - 1] == 0
        invariant 257 <= n <= 286 && forall i :: n <= i < LIT_SYMS ==> lit.sizes[i] == 0
      {
        n := n - 1;
      }
      k := 30;
      while k > 1 && dist.sizes[k - 1] == 0
        invariant 1 <= k <= 30 && forall i :: k <= i < DIST_SYMS ==> dist.sizes[i] == 0
      {
        k := k - 1;
      }
    }

    /** `code_sizes_to_pack` */
    method SizesToPack(n: nat, k: nat, ghost L: seq<nat>, ghost D: seq<nat>) returns (a: array<nat>)
      requires CodesReady(L, D) && n <= LIT_SYMS && k <= DIST_SYMS
      ensures fresh(a) && a.Length == MAX_TO_PACK && a[..n + k] == L[..n] + D[..k]
      ensures forall i :: 0 <= i < n + k ==> a[i] <= MAX_CODE_SIZE
    {
      a := new nat[MAX_TO_PACK];
      SizesAre(n, k, L, D);
      FillSizes(a, n, k, L[..n], D[..k]);
      SmallSizes(n, k, L, D);
      SmallEntries(a, n + k, L[..n] + D[..k]);
    }

    method FillSizes(a: array<nat>, n: nat, k: nat, ghost ls: seq<nat>, ghost ds: seq<nat>)
      requires n <= lit.sizes.Length && k <= dist.sizes.Length && n + k <= a.Length
      requires lit.sizes[..n] == ls && dist.sizes[..k] == ds && a != lit.sizes && a != dist.sizes
      modifies a
      ensures a[..n + k] == ls + ds
    {
      CopyInto(lit.sizes, n, a, 0);
      assert dist.sizes[..k] == ds;
      CopyInto(dist.sizes, k, a, n);
    }

    lemma SizesAre(n: nat, k: nat, L: seq<nat>, D: seq<nat>)
      requires CodesReady(L, D) && n <= LIT_SYMS && k <= DIST_SYMS
      ensures n <= lit.sizes.Length && k <= dist.sizes.Length && lit.sizes[..n] == L[..n] && dist.sizes[..k] == D[..k]
    {
    }

    lemma SmallEntries(a: array<nat>, m: nat, s: seq<nat>)
      requires m <= a.Length && a[..m] == s && forall i :: 0 <= i < m ==> s[i] <= MAX_CODE_SIZE
      ensures forall i :: 0 <= i < m ==> a[i] <= MAX_CODE_SIZE
    {
      assert forall i :: 0 <= i < m ==> a[i] == s[i];
    }

    lemma SmallSizes(n: nat, k: nat, L: seq<nat>, D: seq<nat>)
      requires CodesReady(L, D) && n <= LIT_SYMS && k <= DIST_SYMS
      ensures forall i :: 0 <= i < n + k ==> (L[..n] + D[..k])[i] <= MAX_CODE_SIZE
    {
    }

    method CopyInto(src: array<nat>, n: nat, dst: array<nat>, at: nat)
      requires src != dst && n <= src.Length && at + n <= dst.Length
      modifies dst
      ensures dst[..at + n] == old(dst[..at]) + src[..n]
    {
      for i := 0 to n
        invariant dst[..at + i] == old(dst[..at]) + src[..i]
      {
        dst[at + i] := src[i];
        assert dst[..at + (i + 1)] == dst[..at + i] + [src[i]] && src[..i + 1] == src[..i] + [src[i]];
      }
    }

    method ClearCl()
      requires Separate()
      modifies cl.count
      ensures forall i :: 0 <= i < CL_SYMS ==> cl.count[i] == 0
    {
      for i := 0 to CL_SYMS
        invariant forall j :: 0 <= j < i ==> cl.count[j] == 0
      {
        cl.count[i] := 0;
      }
    }

    /** Packs the code lengths and builds the code for the packed form. */
    /** The operations for `lens`, and the code for them. */
    ghost predicate Packs(p: Packer, C: seq<nat>, lens: seq<nat>)
      reads p, p.packed, p.count
    {
      (p.Holds() && GoodCl(C, p.ops) && ClMinimal(C, p.ops) && p.packedSizes == lens && p.ops == Packing(lens)) == true
    }

    method PackSizes(n: nat, k: nat, ghost L: seq<nat>, ghost D: seq<nat>) returns (p: Packer, ghost C: seq<nat>)
      requires CodesReady(L, D) && n <= LIT_SYMS && k <= DIST_SYMS
      modifies cl.count, cl.codes, cl.sizes
      ensures fresh(p) && fresh(p.packed) && p.count == cl.count && Coded(cl, C) && Packs(p, C, L[..n] + D[..k])
    {
      p := PackOnly(n, k, L, D);
      C := CodeForSizes(p);
    }

    method PackOnly(n: nat, k: nat, ghost L: seq<nat>, ghost D: seq<nat>) returns (p: Packer)
      requires CodesReady(L, D) && n <= LIT_SYMS && k <= DIST_SYMS
      modifies cl.count
      ensures fresh(p) && fresh(p.packed) && p.count == cl.count && p.Holds() && p.packedSizes == L[..n] + D[..k]
      ensures p.ops == Packing(p.packedSizes)
      ensures p.packed as object != cl.sizes as object && p.packed as object != cl.codes as object
    {
      var a := SizesToPack(n, k, L, D);
      ClearCl();
      p := Pack(a, n + k, cl.count);
    }

    method CodeForSizes(p: Packer) returns (ghost C: seq<nat>)
      requires Separate() && p.Holds() && p.count == cl.count
      requires p.packed as object != cl.sizes as object && p.packed as object != cl.codes as object
      modifies cl.codes, cl.sizes
      ensures p.Holds() && Coded(cl, C) && GoodCl(C, p.ops) && ClMinimal(C, p.ops)
    {
      Pow2Values();
      ghost var counts := cl.count[..CL_SYMS];
      ghost var tc := cl.Optimize(CL_SYMS, 7);
      C := cl.sizes[..CL_SYMS];
      assert counts == cl.count[..CL_SYMS];
      ClIsGood(counts, C, p.ops);
      assert ClMadeFor(counts, tc, C, p.ops);
    }

    /** The header of a dynamic block after its kind. */
    method PutHeader(n: nat, k: nat, p: Packer, ghost C: seq<nat>, ghost lens: seq<nat>) returns (ghost h: Header)
      requires Separate() && w.Valid() && Coded(cl, C) && Packs(p, C, lens)
      requires p.packed as object != w.out as object && p.count == cl.count
      requires 257 <= n <= 286 && 1 <= k <= 30 && |lens| == n + k
      modifies w`pos, w`buffer, w`bitsIn, w`bits, w.out
      ensures w.Valid() && HeaderOf(h, n, k, lens) && HeaderFollows(old(w.bits), w.bits, h)
    {
      PackedIs(p);
      ghost var start, ops := w.bits, p.ops;
      PutCounts(n, k);
      var m := PutClSizes(C);
      assert p.Holds();
      PutOps(p, C);
      h := HeaderWritten(w.bits, start, n, k, m, C, ops, lens);
    }

    /** The five parts of a header that have just been written. */
    lemma HeaderWritten(bits: seq<bool>, start: seq<bool>, n: nat, k: nat, m: nat, C: seq<nat>, ops: seq<Op>,
                        lens: seq<nat>) returns (h: Header)
      requires GoodCl(C, ops) && 4 <= m <= CL_SYMS && forall i :: m <= i < CL_SYMS ==> C[Swizzle(i)] == 0
      requires OpsOk(ops, []) && Unpack([], ops) == lens && EndsUsed(C, m) && ClMinimal(C, ops)
      requires 257 <= n <= 286 && 1 <= k <= 30 && |lens| == n + k && ops == Packing(lens)
      requires bits == start + ToBits(n - 257, 5) + ToBits(k - 1, 5) + ToBits(m - 4, 4)
                       + SwizzledBits(C, 0, m) + OpsBits(C, ops)
      ensures HeaderOf(h, n, k, lens) && HeaderFollows(start, bits, h)
    {
      h := Header(C, m, n, k, ops);
      HeaderIsGood(h, lens);
      HeaderBitsAre(C, m, n, k, ops);
      PartsFollow(bits, start, ToBits(n - 257, 5), ToBits(k - 1, 5), ToBits(m - 4, 4), SwizzledBits(C, 0, m),
                  OpsBits(C, ops), HeaderBits(h));
    }

    lemma PartsFollow(bits: seq<bool>, s: seq<bool>, a: seq<bool>, b: seq<bool>, c: seq<bool>, d: seq<bool>,
                      e: seq<bool>, all: seq<bool>)
      requires bits == s + a + b + c + d + e && all == a + b + c + d + e
      ensures bits == s + all
    {
      FiveParts(s, a, b, c, d, e);
    }

    method PutCounts(n: nat, k: nat)
      requires w.Valid() && 257 <= n <= 286 && 1 <= k <= 30
      modifies w`pos, w`buffer, w`bitsIn, w`bits, w.out
      ensures w.Valid() && w.bits == old(w.bits) + ToBits(n - 257, 5) + ToBits(k - 1, 5)
    {
      Pow2Values();
      w.PutBits(n - 257, 5);
      w.PutBits(k - 1, 5);
    }

    lemma PackedIs(p: Packer)
      requires p.Holds()
      ensures OpsOk(p.ops, []) && Unpack([], p.ops) == p.packedSizes && p.n <= p.packed.Length
          && p.packed[..p.n] == AllStored(p.ops)
    {
    }

    /** How many lengths of the code length code are sent, and these lengths. */
    method PutClSizes(ghost C: seq<nat>) returns (m: nat)
      requires w.Valid() && Separate() && Coded(cl, C) && |C| == CL_SYMS && forall i :: 0 <= i < CL_SYMS ==> C[i] < 8
      modifies w`pos, w`buffer, w`bitsIn, w`bits, w.out
      ensures w.Valid() && Coded(cl, C) && 4 <= m <= CL_SYMS
      ensures (forall i :: m <= i < CL_SYMS ==> C[Swizzle(i)] == 0) && EndsUsed(C, m)
      ensures w.bits == old(w.bits) + ToBits(m - 4, 4) + SwizzledBits(C, 0, m)
    {
      m := UsedClSizes(C);
      Pow2Values();
      w.PutBits(m - 4, 4);
      PutSwizzled(m, C);
    }

    /** `num_bit_lengths` */
    /** All lengths behind the `last`, in header order, are zero. */
    static ghost predicate ZerosBehind(C: seq<nat>, last: int) {
      (|C| == CL_SYMS && forall i :: 0 <= i < CL_SYMS && last < i ==> C[Swizzle(i)] == 0) == true
    }

    static lemma OneMoreZeroBehind(C: seq<nat>, last: nat)
      requires ZerosBehind(C, last) && last < CL_SYMS && C[Swizzle(last)] == 0
      ensures ZerosBehind(C, last - 1)
    {
    }

    method UsedClSizes(ghost C: seq<nat>) returns (m: nat)
      requires Coded(cl, C) && |C| == CL_SYMS
      ensures 4 <= m <= CL_SYMS && forall i :: m <= i < CL_SYMS ==> C[Swizzle(i)] == 0
      ensures EndsUsed(C, m)
    {
      assert forall i :: 0 <= i < CL_SYMS ==> C[i] == cl.sizes[i];
      var last := 18;
      while last >= 0 && cl.sizes[Swizzle(last)] == 0
        invariant -1 <= last <= 18 && ZerosBehind(C, last)
        decreases last
      {
        OneMoreZeroBehind(C, last);
        last := last - 1;
      }
      m := if last + 1 < 4 then 4 else last + 1;
    }

    method PutSwizzled(m: nat, ghost C: seq<nat>)
      requires w.Valid() && Separate() && Coded(cl, C) && |C| == CL_SYMS && m <= CL_SYMS
      requires forall i :: 0 <= i < CL_SYMS ==> C[i] < 8
      modifies w`pos, w`buffer, w`bitsIn, w`bits, w.out
      ensures w.Valid() && Coded(cl, C) && w.bits == old(w.bits) + SwizzledBits(C, 0, m)
    {
      Pow2Values();
      var i: nat := 0;
      ghost var start := w.bits;
      while i < m
        invariant i <= m && w.Valid() && Coded(cl, C) && w.bits == start + SwizzledBits(C, 0, i)
      {
        assert C[Swizzle(i)] == cl.sizes[Swizzle(i)];
        w.PutBits(cl.sizes[Swizzle(i)], 3);
        SwizzledSnoc(C, 0, i);
        Regroup(start, SwizzledBits(C, 0, i), ToBits(C[Swizzle(i)], 3));
        i := i + 1;
      }
    }

    /** The packed code lengths. */
    /** The first `done` operations are written, and number `i` of `packed` is next. */
    ghost predicate Putting(p: Packer, C: seq<nat>, i: nat, done: nat, start: seq<bool>)
      reads w, w.out, cl.codes, cl.sizes, p, p.packed, p.count
    {
      (&& w.Valid() && Coded(cl, C) && p.Holds() && done <= |p.ops| && i == |AllStored(p.ops[..done])|
       && OpsPut(C, p.ops, done, start, w.bits)) == true
    }

    method PutOps(p: Packer, ghost C: seq<nat>)
      requires w.Valid() && Separate() && Coded(cl, C) && GoodCl(C, p.ops) && p.Holds()
      requires p.packed as object != w.out as object && p.count == cl.count
      modifies w`pos, w`buffer, w`bitsIn, w`bits, w.out
      ensures w.Valid() && Coded(cl, C) && OpsCoded(C, p.ops) && w.bits == old(w.bits) + OpsBits(C, p.ops)
    {
      NothingPut(p, C);
      PutFrom(p, C, w.bits);
    }

    method PutFrom(p: Packer, ghost C: seq<nat>, ghost start: seq<bool>)
      requires Separate() && |C| == CL_SYMS && Putting(p, C, 0, 0, start)
      requires p.packed as object != w.out as object && p.count == cl.count
      modifies w`pos, w`buffer, w`bitsIn, w`bits, w.out
      ensures w.Valid() && Coded(cl, C) && OpsCoded(C, p.ops) && w.bits == start + OpsBits(C, p.ops)
    {
      var i: nat := 0;
      ghost var done: nat, all := 0, |p.ops|;
      while i < p.n
        invariant done <= all && Putting(p, C, i, done, start)
        decreases all - done
      {
        i := OpTurn(p, i, done, start, C);
        done := done + 1;
      }
      AllPut(p, C, i, done, start);
    }

    lemma NothingPut(p: Packer, C: seq<nat>)
      requires w.Valid() && Coded(cl, C) && GoodCl(C, p.ops) && p.Holds()
      ensures Putting(p, C, 0, 0, w.bits)
    {
      assert p.ops[..0] == [];
    }

    lemma AllPut(p: Packer, C: seq<nat>, i: nat, done: nat, start: seq<bool>)
      requires Putting(p, C, i, done, start) && i >= p.n
      ensures w.Valid() && Coded(cl, C) && OpsCoded(C, p.ops) && w.bits == start + OpsBits(C, p.ops)
    {
      AllOps(p, done);
    }

    method OpTurn(p: Packer, i: nat, ghost done: nat, ghost start: seq<bool>, ghost C: seq<nat>) returns (i': nat)
      requires Separate() && |C| == CL_SYMS && Putting(p, C, i, done, start) && i < p.n
      requires p.packed as object != w.out as object && p.count == cl.count
      modifies w`pos, w`buffer, w`bitsIn, w`bits, w.out
      ensures done < |p.ops| && Putting(p, C, i', done + 1, start)
    {
      OpAhead(p, done);
      NextOp(C, p.ops, done, start, w.bits);
      i' := PutOp(p, i, p.ops[done], C);
    }

    /** The stored form of operation `done` comes next. */
    lemma OpAhead(p: Packer, done: nat)
      requires p.Holds() && done <= |p.ops| && |AllStored(p.ops[..done])| < p.n
      ensures done < |p.ops| && |AllStored(p.ops[..done + 1])| == |AllStored(p.ops[..done])| + |Stored(p.ops[done])|
      ensures OpAt(p.packed[..], |AllStored(p.ops[..done])|, p.ops[done])
    {
      PackedIs(p);
      StoredOpAt(p.packed[..], p.n, p.ops, done);
    }

    lemma AllOps(p: Packer, done: nat)
      requires p.Holds() && done <= |p.ops| && |AllStored(p.ops[..done])| >= p.n
      ensures p.ops[..done] == p.ops
    {
      if done < |p.ops| {
        StoredOp(p.ops, done);
      }
    }

    method PutOp(p: Packer, i: nat, ghost op: Op, ghost C: seq<nat>) returns (i': nat)
      requires w.Valid() && Separate() && Coded(cl, C) && |C| == CL_SYMS && OpAt(p.packed[..], i, op)
          && C[OpSym(op)] >= 1
      requires p.packed as object != w.out as object
      modifies w`pos, w`buffer, w`bitsIn, w`bits, w.out
      ensures w.Valid() && Coded(cl, C) && w.bits == old(w.bits) + OpBits(C, op) && i' == i + |Stored(op)|
    {
      ghost var start, stored := w.bits, p.packed[..][i..i + |Stored(op)|];
      assert stored[0] == p.packed[i];
      var code := p.packed[i];
      i' := i + 1;
      PutCode(cl, C, code);
      if code >= 16 {
        assert stored[1] == p.packed[i + 1];
        w.PutBits(p.packed[i'], RepeatWidth(code));
        i' := i' + 1;
        Regroup(start, CodeBits(C, code), ToBits(op.extra, RepeatWidth(op.sym)));
      }
    }

    /** `tdefl_start_dynamic_block` */
    method StartDynamic(ghost ts: seq<Token>) returns (ghost h: Header, ghost L: seq<nat>, ghost D: seq<nat>)
      requires Counted(ts) && w.Valid()
      modifies w`pos, w`buffer, w`bitsIn, w`bits, w.out
      modifies lit.count, lit.codes, lit.sizes, dist.codes, dist.sizes, cl.count, cl.codes, cl.sizes
      ensures w.Valid() && CodesReady(L, D) && HeaderFor(h, L, D, ts, old(w.bits), w.bits)
    {
      L, D := BuildCodes(ts);
      h := WriteHeader(L, D, ts);
    }

    method WriteHeader(ghost L: seq<nat>, ghost D: seq<nat>, ghost ts: seq<Token>) returns (ghost h: Header)
      requires CodesReady(L, D) && w.Valid() && GoodFor(ts, L, D)
      modifies w`pos, w`buffer, w`bitsIn, w`bits, w.out, cl.count, cl.codes, cl.sizes
      ensures w.Valid() && CodesReady(L, D) && GoodForm(Form.Dynamic(h, L, D), ts) && Tight(h, L, D)
      ensures HeaderPut(old(w.bits), w.bits, h)
    {
      var n, k := TrimCodes(L, D);
      ghost var lens := Both(n, k, L, D);
      h := WriteTrimmed(n, k, L, D, lens);
      IsTight(h, L, D, lens, ts);
    }

    method WriteTrimmed(n: nat, k: nat, ghost L: seq<nat>, ghost D: seq<nat>, ghost lens: seq<nat>)
      returns (ghost h: Header)
      requires CodesReady(L, D) && w.Valid() && Trimmed(n, k, L, D) && lens == L[..n] + D[..k]
      modifies w`pos, w`buffer, w`bitsIn, w`bits, w.out, cl.count, cl.codes, cl.sizes
      ensures w.Valid() && CodesReady(L, D) && HeaderOf(h, n, k, lens) && HeaderPut(old(w.bits), w.bits, h)
    {
      var p;
      ghost var C;
      p, C := PackSizes(n, k, L, D);
      h := PutDynamic(n, k, p, C, L, D, lens);
    }

    method PutDynamic(n: nat, k: nat, p: Packer, ghost C: seq<nat>, ghost L: seq<nat>, ghost D: seq<nat>,
                      ghost lens: seq<nat>)
      returns (ghost h: Header)
      requires CodesReady(L, D) && w.Valid() && Coded(cl, C) && Packs(p, C, lens)
      requires p.packed as object != w.out as object && p.count == cl.count
      requires 257 <= n <= 286 && 1 <= k <= 30 && |lens| == n + k
      modifies w`pos, w`buffer, w`bitsIn, w`bits, w.out
      ensures w.Valid() && CodesReady(L, D) && HeaderOf(h, n, k, lens) && HeaderPut(old(w.bits), w.bits, h)
    {
      WritingApart();
      h := PutKindAndHeader(n, k, p, C, lens);
    }

    method PutKindAndHeader(n: nat, k: nat, p: Packer, ghost C: seq<nat>, ghost lens: seq<nat>)
      returns (ghost h: Header)
      requires Separate() && w.Valid() && Coded(cl, C) && Packs(p, C, lens)
      requires p.packed as object != w.out as object && p.count == cl.count
      requires 257 <= n <= 286 && 1 <= k <= 30 && |lens| == n + k
      modifies w`pos, w`buffer, w`bitsIn, w`bits, w.out
      ensures w.Valid() && HeaderOf(h, n, k, lens) && HeaderPut(old(w.bits), w.bits, h)
    {
      ghost var start := w.bits;
      WritingApart();
      StartBlock(2);
      assert Packs(p, C, lens);
      h := PutHeader(n, k, p, C, lens);
      HeaderIsPut(start, w.bits, h, lens);
    }

    lemma IsTight(h: Header, L: seq<nat>, D: seq<nat>, lens: seq<nat>, ts: seq<Token>)
      requires HeaderOf(h, h.nlit, h.ndist, lens) && GoodFor(ts, L, D) && Trimmed(h.nlit, h.ndist, L, D)
      requires lens == L[..h.nlit] + D[..h.ndist]
      ensures Tight(h, L, D) && GoodForm(Form.Dynamic(h, L, D), ts)
    {
      assert GoodDynamic(h, L, D, ts);
    }

    // ---- A whole compressed block

    /** A block with the fixed codes. */
    method CompressStatic(ghost bs: seq<Byte>, ghost ts: seq<Token>, ghost left: seq<bool>) returns (ghost f: Form)
      requires Separate() && w.Valid() && Recorded(bs) && Segment(bs, [], ts, left) && AllStorable(ts)
      modifies w`pos, w`buffer, w`bitsIn, w`bits, w.out, lit.codes, lit.sizes, dist.codes, dist.sizes
      ensures w.Valid() && Recorded(bs) && f.Static? && GoodForm(f, ts) && w.bits == old(w.bits) + FormBits(f, ts)
    {
      ghost var start, L, D := w.bits, [], [];
      L, D := StartStatic();
      FixedEncodes(L, D, ts);
      CompressLzCodes(L, D, bs, ts, left);
      Regroup(start, ToBits(1, 2), BodyBits(L, D, ts));
      f := Form.Static(L, D);
    }

    /** A block with codes made for its tokens. */
    method CompressDynamic(ghost bs: seq<Byte>, ghost ts: seq<Token>, ghost left: seq<bool>)
      returns (ghost f: Form)
      requires Counted(ts) && w.Valid() && Recorded(bs) && Segment(bs, [], ts, left)
      modifies w`pos, w`buffer, w`bitsIn, w`bits, w.out
      modifies lit.count, lit.codes, lit.sizes, dist.codes, dist.sizes, cl.count, cl.codes, cl.sizes
      ensures w.Valid() && Recorded(bs) && f.Dynamic? && GoodForm(f, ts) && w.bits == old(w.bits) + FormBits(f, ts)
      ensures AllStorable(ts) && Tailored(ts, f)
    {
      ghost var start := w.bits;
      ghost var h, L, D := StartDynamicOf(bs, ts);
      f := Form.Dynamic(h, L, D);
      DynamicParts(start, h, L, D, ts);
      CompressLzCodes(L, D, bs, ts, left);
    }

    method StartDynamicOf(ghost bs: seq<Byte>, ghost ts: seq<Token>)
      returns (ghost h: Header, ghost L: seq<nat>, ghost D: seq<nat>)
      requires Counted(ts) && w.Valid() && Recorded(bs)
      modifies w`pos, w`buffer, w`bitsIn, w`bits, w.out
      modifies lit.count, lit.codes, lit.sizes, dist.codes, dist.sizes, cl.count, cl.codes, cl.sizes
      ensures w.Valid() && Recorded(bs) && CodesReady(L, D) && HeaderFor(h, L, D, ts, old(w.bits), w.bits)
    {
      h, L, D := StartDynamic(ts);
    }
  }

  lemma DynamicParts(start: seq<bool>, h: Header, L: seq<nat>, D: seq<nat>, ts: seq<Token>)
    requires GoodForm(Form.Dynamic(h, L, D), ts)
    ensures AllEncodable(L, D, ts) && |L| == LIT_SYMS && L[256] >= 1
    ensures start + ToBits(2, 2) + HeaderBits(h) + BodyBits(L, D, ts) == start + FormBits(Form.Dynamic(h, L, D), ts)
  {
    Regroup(start, ToBits(2, 2), HeaderBits(h));
    Regroup(start, ToBits(2, 2) + HeaderBits(h), BodyBits(L, D, ts));
  }

  /** The code for packed lengths encodes all operations and is what a decoder accepts. */
  ghost predicate GoodCl(C: seq<nat>, ops: seq<Op>) {
    (|C| == CL_SYMS && Decodable(C) && (forall i :: 0 <= i < CL_SYMS ==> C[i] < 8) && OpsCoded(C, ops)) == true
  }

  /** It is made for these operations: no code is shorter unless a word had to be kept to seven bits. */
  ghost predicate ClMinimal(C: seq<nat>, ops: seq<Op>) {
    (exists counts, t :: ClMadeFor(counts, t, C, ops)) == true
  }

  ghost predicate ClMadeFor(counts: seq<U16>, t: seq<SymFreq>, C: seq<nat>, ops: seq<Op>) {
    (&& |C| == |counts| == CL_SYMS && (forall sym :: 0 <= sym < CL_SYMS ==> counts[sym] == Uses(ops, sym))
     && HuffTable.Lists(t, counts) && RadixSort.KeysSorted(t) && HuffTable.MinimalUnlessLimited(t, C, 7)) == true
  }

  lemma ClIsGood(counts: seq<U16>, C: seq<nat>, ops: seq<Op>)
    requires |counts| == CL_SYMS && HuffTable.GoodLengths(counts, C, 7)
    requires forall sym :: 0 <= sym < CL_SYMS ==> counts[sym] == Uses(ops, sym)
    requires OpsOk(ops, [])
    ensures GoodCl(C, ops)
  {
    GoodIsDecodable(counts, C, 7);
    forall i | 0 <= i < |ops| ensures OpSym(ops[i]) < |C| && C[OpSym(ops[i])] >= 1 {
      OpSymSmall(ops, [], i);
      UsedOp(ops, i);
      assert counts[OpSym(ops[i])] == Uses(ops, OpSym(ops[i]));
    }
  }

  lemma {:induction false} OpSymSmall(ops: seq<Op>, lens: seq<nat>, i: nat)
    requires OpsOk(ops, lens) && i < |ops|
    ensures OpSym(ops[i]) < CL_SYMS && (ops[i].Plain? <==> OpSym(ops[i]) < 16)
    ensures ops[i].Repeat? ==> ops[i].extra < Pow2(RepeatWidth(ops[i].sym))
    decreases i
  {
    if i > 0 {
      OpSymSmall(ops[1..], Do(lens, ops[0]), i - 1);
    }
  }

  /** The stored form of `op` is at position `i`. */
  ghost predicate OpAt(packed: seq<nat>, i: nat, op: Op) {
    (&& i + |Stored(op)| <= |packed| && packed[i..i + |Stored(op)|] == Stored(op)
     && OpSym(op) < CL_SYMS && (op.Plain? <==> OpSym(op) < 16)
     && (op.Repeat? ==> op.extra < Pow2(RepeatWidth(op.sym)))) == true
  }

  lemma StoredOpAt(packed: seq<nat>, n: nat, ops: seq<Op>, done: nat)
    requires n <= |packed| && packed[..n] == AllStored(ops) && OpsOk(ops, [])
    requires done <= |ops| && |AllStored(ops[..done])| < n
    ensures done < |ops| && |AllStored(ops[..done + 1])| == |AllStored(ops[..done])| + |Stored(ops[done])|
    ensures OpAt(packed, |AllStored(ops[..done])|, ops[done])
  {
    assert ops[..|ops|] == ops;
    StoredOp(ops, done);
    OpSymSmall(ops, [], done);
    var a, b := AllStored(ops[..done]), Stored(ops[done]);
    PrefixOf(packed, n, a + b);
    PartOf(packed, a, b);
  }

  lemma PrefixOf<T>(s: seq<T>, n: nat, a: seq<T>)
    requires n <= |s| && a <= s[..n]
    ensures a <= s
  {
  }

  lemma HeaderIsGood(h: Header, lens: seq<nat>)
    requires GoodCl(h.cl, h.ops) && 4 <= h.n <= CL_SYMS && forall i :: h.n <= i < CL_SYMS ==> h.cl[Swizzle(i)] == 0
    requires OpsOk(h.ops, []) && Unpack([], h.ops) == lens
    requires 257 <= h.nlit <= 286 && 1 <= h.ndist <= 30 && |lens| == h.nlit + h.ndist
    ensures GoodHeader(h, lens)
  {
  }

  /** The first `done` operations are written. */
  ghost predicate OpsPut(C: seq<nat>, ops: seq<Op>, done: nat, start: seq<bool>, bits: seq<bool>) {
    (done <= |ops| && OpsCoded(C, ops) && OpsCoded(C, ops[..done]) && bits == start + OpsBits(C, ops[..done])) == true
  }

  lemma NextOp(C: seq<nat>, ops: seq<Op>, done: nat, start: seq<bool>, bits: seq<bool>)
    requires OpsPut(C, ops, done, start, bits) && done < |ops|
    ensures OpSym(ops[done]) < |C| && C[OpSym(ops[done])] >= 1
    ensures OpsPut(C, ops, done + 1, start, bits + OpBits(C, ops[done]))
  {
    assert ops[..done + 1] == ops[..done] + [ops[done]];
    OpsBitsSnoc(C, ops[..done], ops[done]);
    Regroup(start, OpsBits(C, ops[..done]), OpBits(C, ops[done]));
  }

  lemma PartOf<T>(s: seq<T>, a: seq<T>, b: seq<T>)
    requires a + b <= s
    ensures s[|a|..|a| + |b|] == b
  {
    assert s[..|a| + |b|] == a + b;
  }

  lemma HeaderBitsAre(C: seq<nat>, m: nat, n: nat, k: nat, ops: seq<Op>)
    requires |C| == MAX_CODE_LENGTHS && 4 <= m <= MAX_CODE_LENGTHS && 257 <= n && 1 <= k && OpsCoded(C, ops)
    ensures HeaderBits(Header(C, m, n, k, ops)) ==
        ToBits(n - 257, 5) + ToBits(k - 1, 5) + ToBits(m - 4, 4) + SwizzledBits(C, 0, m) + OpsBits(C, ops)
  {
    CountBitsAre(Header(C, m, n, k, ops), n - 257, k - 1, m - 4);
  }

  lemma CountBitsAre(h: Header, n: nat, k: nat, m: nat)
    requires h.nlit == n + 257 && h.ndist == k + 1 && h.n == m + 4
    ensures CountBits(h) == ToBits(n, 5) + ToBits(k, 5) + ToBits(m, 4)
  {
  }

  lemma FiveParts<T>(s: seq<T>, a: seq<T>, b: seq<T>, c: seq<T>, d: seq<T>, e: seq<T>)
    ensures s + a + b + c + d + e == s + (a + b + c + d + e)
  {
  }

  // ---- Codes of a dynamic block

  /** A code for the symbols that occur that is minimal, but for what limiting its lengths costs. */
  ghost predicate Cheap(count: seq<U16>, L: seq<nat>, t: seq<SymFreq>) {
    (&& |L| == |count| <= HuffTable.MAX_SYMBOLS && HuffTable.Lists(t, count) && RadixSort.KeysSorted(t)
     && |t| <= |count| && HuffTable.NearlyMinimal(t, L)
     && (|t| <= 1 ==> forall i :: 0 <= i < |L| ==> L[i] <= 1)) == true
  }

  ghost predicate CheapLit(ts: seq<Token>, L: seq<nat>, lc: seq<U16>, t: seq<SymFreq>)
    requires AllStorable(ts)
  {
    CountsLit(lc, ts) && Cheap(lc[256 := 1], L, t)
  }

  ghost predicate CheapDist(ts: seq<Token>, D: seq<nat>, dc: seq<U16>, t: seq<SymFreq>)
    requires AllStorable(ts)
  {
    CountsDist(dc, ts) && Cheap(dc, D, t)
  }

  lemma CheapIs(count: seq<U16>, L: seq<nat>, t: seq<SymFreq>)
    requires HuffTable.GoodLengths(count, L, MAX_CODE_SIZE) && HuffTable.Lists(t, count) && RadixSort.KeysSorted(t)
    requires |t| <= |count| && HuffTable.NearlyMinimal(t, L)
    ensures Cheap(count, L, t)
  {
    if |t| <= 1 {
      UsedOnce(count, t);
    }
  }

  /** Both codes are made for the recorded tokens. */
  ghost predicate CheapFor(ts: seq<Token>, L: seq<nat>, D: seq<nat>)
    requires AllStorable(ts)
  {
    (exists lc, t :: CheapLit(ts, L, lc, t)) && (exists dc, t :: CheapDist(ts, D, dc, t))
  }

  /** The code length code is transmitted up to its last length that is not zero. */
  ghost predicate EndsUsed(C: seq<nat>, m: nat) {
    (|C| == CL_SYMS && 4 <= m <= CL_SYMS && (m == 4 || C[Swizzle(m - 1)] != 0)) == true
  }

  /** Behind the first `n` and `k` lengths are none but zeros, and no fewer would do. */
  ghost predicate Trimmed(n: nat, k: nat, L: seq<nat>, D: seq<nat>) {
    (&& |L| == LIT_SYMS && 257 <= n <= 286 && (forall i :: n <= i < LIT_SYMS ==> L[i] == 0)
     && |D| == DIST_SYMS && 1 <= k <= 30 && (forall i :: k <= i < DIST_SYMS ==> D[i] == 0)
     && (n == 257 || L[n - 1] != 0) && (k == 1 || D[k - 1] != 0)) == true
  }

  /** The lengths that are transmitted. */
  ghost function Both(n: nat, k: nat, L: seq<nat>, D: seq<nat>): (lens: seq<nat>)
    requires Trimmed(n, k, L, D)
    ensures |lens| == n + k && lens == L[..n] + D[..k]
  {
    L[..n] + D[..k]
  }

  /** A header for `lens`, the first `n` of them for literals and lengths, with nothing in it that could be left out. */
  ghost predicate HeaderOf(h: Header, n: nat, k: nat, lens: seq<nat>) {
    (&& GoodHeader(h, lens) && h.nlit == n && h.ndist == k && h.ops == Packing(lens) && EndsUsed(h.cl, h.n)
     && ClMinimal(h.cl, h.ops)) == true
  }

  /** A header made for the tokens has been written. */
  ghost predicate HeaderFor(h: Header, L: seq<nat>, D: seq<nat>, ts: seq<Token>, start: seq<bool>, bits: seq<bool>) {
    (&& GoodForm(Form.Dynamic(h, L, D), ts) && AllStorable(ts) && Tailored(ts, Form.Dynamic(h, L, D))
     && HeaderPut(start, bits, h)) == true
  }

  ghost predicate HeaderFollows(start: seq<bool>, bits: seq<bool>, h: Header) {
    (&& |h.cl| == CL_SYMS && 4 <= h.n <= CL_SYMS && 257 <= h.nlit && 1 <= h.ndist && OpsCoded(h.cl, h.ops)
     && bits == start + HeaderBits(h)) == true
  }

  lemma HeaderIsPut(start: seq<bool>, bits: seq<bool>, h: Header, lens: seq<nat>)
    requires HeaderFollows(start + ToBits(2, 2), bits, h)
    ensures HeaderPut(start, bits, h)
  {
  }

  /** The kind of a block and its header have been written. */
  ghost predicate HeaderPut(start: seq<bool>, bits: seq<bool>, h: Header) {
    (&& |h.cl| == CL_SYMS && 4 <= h.n <= CL_SYMS && 257 <= h.nlit && 1 <= h.ndist && OpsCoded(h.cl, h.ops)
     && bits == start + ToBits(2, 2) + HeaderBits(h)) == true
  }

  /** A header has nothing in it that could be left out: no lengths of zero at an end, and runs packed as such. */
  ghost predicate Tight(h: Header, L: seq<nat>, D: seq<nat>) {
    (&& |h.cl| == CL_SYMS && 4 <= h.n <= CL_SYMS && EndsUsed(h.cl, h.n) && ClMinimal(h.cl, h.ops)
     && 257 <= h.nlit <= |L| && (h.nlit == 257 || L[h.nlit - 1] != 0)
     && 1 <= h.ndist <= |D| && (h.ndist == 1 || D[h.ndist - 1] != 0)
     && h.ops == Packing(L[..h.nlit] + D[..h.ndist])) == true
  }

  /** A compressed block is the fixed codes', or made to measure. */
  ghost predicate Tailored(ts: seq<Token>, f: Form)
    requires AllStorable(ts)
  {
    (f.Dynamic? ==> CheapFor(ts, f.L, f.D) && Tight(f.h, f.L, f.D)) == true
  }

  lemma SameSym(u: seq<SymFreq>, t: seq<SymFreq>)
    requires forall i :: 0 <= i < |u| ==> |t| == 1 && u[i].sym == t[0].sym
    ensures |u| >= 2 ==> u[0].sym == u[1].sym
  {
  }

  lemma UsedOnce(count: seq<U16>, t: seq<SymFreq>)
    requires |count| <= HuffTable.MAX_SYMBOLS && HuffTable.Lists(t, count) && |t| <= 1
    ensures |HuffTable.Used(count)| <= 1
  {
    var u := HuffTable.Used(count);
    HuffTable.UsedLists(count);
    forall i | 0 <= i < |u| ensures |t| == 1 && u[i].sym == t[0].sym {
      assert count[u[i].sym] != 0;
    }
    SameSym(u, t);
  }

  lemma WithEnd(lc: seq<U16>, ts: seq<Token>)
    requires AllStorable(ts) && CountsLit(lc, ts) && |ts| < 0xFFFF
    ensures |lc| == LIT_SYMS && Sum(lc[256 := 1]) < 0x1_0000
  {
    ReservedUnused(ts, 256);
    assert lc[256] == LitUses(ts, 256);
    SumUpdate(lc, 256, 1);
  }

  lemma GoodIsDecodable(count: seq<U16>, sizes: seq<nat>, limit: nat)
    requires HuffTable.GoodLengths(count, sizes, limit)
    ensures Decodable(sizes)
  {
    if |HuffTable.Used(count)| <= 1 {
      HuffTable.UsedLists(count);
      forall a, b | 0 <= a < |sizes| && 0 <= b < |sizes| && sizes[a] >= 1 && sizes[b] >= 1 ensures a == b {
        assert count[a] != 0 && count[b] != 0;
      }
    }
  }

  lemma CodesAreGood(lc: seq<U16>, dc: seq<U16>, ts: seq<Token>, L: seq<nat>, D: seq<nat>)
    requires AllStorable(ts) && CountsLit(lc, ts) && CountsDist(dc, ts)
    requires HuffTable.GoodLengths(lc[256 := 1], L, MAX_CODE_SIZE) && HuffTable.GoodLengths(dc, D, MAX_CODE_SIZE)
    ensures GoodFor(ts, L, D)
  {
    GoodIsDecodable(lc[256 := 1], L, MAX_CODE_SIZE);
    GoodIsDecodable(dc, D, MAX_CODE_SIZE);
    forall i | 0 <= i < |ts| ensures Encodable(L, D, ts[i]) {
      TokenIsCounted(ts, i);
      var t := ts[i];
      assert lc[LitSym(t)] == LitUses(ts, LitSym(t));
      if t.Match? {
        assert dc[DistSym(t.dist - 1)] == DistUses(ts, DistSym(t.dist - 1));
      }
    }
    assert lc[256 := 1][256] == 1;
    forall k | 286 <= k < 288 ensures L[k] == 0 {
      ReservedUnused(ts, k);
      assert lc[256 := 1][k] == lc[k] == LitUses(ts, k);
    }
    forall k | 30 <= k < 32 ensures D[k] == 0 {
      ReservedUnused(ts, k);
      assert dc[k] == DistUses(ts, k);
    }
  }

  // ---- Reading recorded tokens back

  /** The bytes of token `t` are at position `p` of `bs`. */
  ghost predicate BytesAt(bs: seq<Byte>, p: nat, t: Token) {
    && Fits(t, MAX_DIST) && p + |TokenBytes(t)| <= |bs|
    && (t.Literal? ==> bs[p] == t.b)
    && (t.Match? ==>
          bs[p] == t.len - MIN_MATCH && bs[p + 1] == (t.dist - 1) % 256 && bs[p + 2] == (t.dist - 1) / 256)
  }

  lemma TokenAhead(bs: seq<Byte>, p: nat, t: Token)
    requires p <= |bs| && Fits(t, MAX_DIST) && TokenBytes(t) <= bs[p..]
    ensures BytesAt(bs, p, t)
  {
    assert forall i :: 0 <= i < |TokenBytes(t)| ==> bs[p + i] == bs[p..][i] == TokenBytes(t)[i];
  }

  /** What is left to do of `compress_lz_codes`: tokens `rest`, from position `p` with `flags` at hand. */
  ghost predicate Reading(bs: seq<Byte>, p: nat, flags: nat, fl: seq<bool>, rest: seq<Token>, left: seq<bool>) {
    (p <= |bs| && Segment(bs[p..], fl, rest, left) && flags == FromBits(fl) + Pow2(|fl|)) == true
  }

  lemma StartReading(bs: seq<Byte>, ts: seq<Token>, left: seq<bool>)
    requires Segment(bs, [], ts, left)
    ensures Reading(bs, 0, 1, [], ts, left)
  {
    assert bs[0..] == bs;
  }

  lemma NextFlags(bs: seq<Byte>, p: nat, flags: nat, fl: seq<bool>, rest: seq<Token>, left: seq<bool>)
    requires Reading(bs, p, flags, fl, rest, left)
    ensures p < |bs| <==> rest != []
    ensures rest != [] ==> (flags == 1 <==> fl == [])
    ensures rest != [] && fl == [] ==> Reading(bs, p + 1, bs[p] as nat + 256, ToBits(bs[p], 8), rest, left)
  {
    if rest != [] && fl == [] {
      Pow2Values();
      FromToBits(bs[p], 8);
      assert bs[p..][1..] == bs[p + 1..];
    } else if rest != [] {
      assert TokenBytes(rest[0]) <= bs[p..];
    }
  }

  lemma TakeFlag(bs: seq<Byte>, p: nat, flags: nat, fl: seq<bool>, rest: seq<Token>, left: seq<bool>)
    requires Reading(bs, p, flags, fl, rest, left) && rest != [] && fl != []
    ensures BytesAt(bs, p, rest[0])
    ensures (flags % 2 == 1) == rest[0].Match?
    ensures Reading(bs, p + |TokenBytes(rest[0])|, flags / 2, fl[1..], rest[1..], left)
  {
    var k := |TokenBytes(rest[0])|;
    TokenAhead(bs, p, rest[0]);
    assert bs[p..][k..] == bs[p + k..];
  }

  /** Where the loop stands: `done` is written, `rest` still to be read. */
  ghost predicate Written(bits: seq<bool>, start: seq<bool>, L: seq<nat>, D: seq<nat>, ts: seq<Token>,
                          done: seq<Token>, rest: seq<Token>) {
    (&& done + rest == ts && AllEncodable(L, D, done) && AllEncodable(L, D, rest)
     && bits == start + TokensBits(L, D, done)) == true
  }

  lemma OneMore(bits: seq<bool>, start: seq<bool>, L: seq<nat>, D: seq<nat>, ts: seq<Token>, done: seq<Token>,
                rest: seq<Token>)
    requires Written(bits, start, L, D, ts, done, rest) && rest != []
    ensures Encodable(L, D, rest[0])
    ensures Written(bits + TokenBits(L, D, rest[0]), start, L, D, ts, done + [rest[0]], rest[1..])
  {
    MoveOne(done, rest);
    TailEncodable(L, D, rest);
    TokensBitsSnoc(L, D, done, rest[0]);
    Regroup(start, TokensBits(L, D, done), TokenBits(L, D, rest[0]));
  }
}
