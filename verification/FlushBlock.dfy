/**
 Finishing a block (`tdefl_flush_block`): choosing how it is coded, the stream
 header and trailer, and handing full bytes to the output.
 */
module FlushBlock {
  import opened Bits
  import opened Tokens
  import opened InflateSpec
  import opened BlockBits
  import opened Stream
  import BitWriter
  import opened LzBuffer
  import opened BlockWriter
  import opened BlockSize
  import opened Canonical

  const DICT_SIZE := 32768
  /** The room for one block: TDEFL_OUT_BUF_SIZE - 16. */
  const BLOCK_ROOM := 85180

  datatype FlushMode = NoFlush | SyncFlush | FullFlush | Finish

  /** The compression flags. */
  datatype Flags = Flags(
    zlibHeader: bool, computeAdler: bool, greedy: bool, rleMatches: bool, filterMatches: bool,
    forceStatic: bool, forceRaw: bool, maxProbes: nat)

  // ---- How long a block with fixed codes can get

  lemma FixedTokenSize(L: seq<nat>, D: seq<nat>, t: Token)
    requires FixedLengths(L, D) && Fits(t, MAX_DIST) && Encodable(L, D, t)
    ensures 538 * |TokenBits(L, D, t)| + 640 <= 693 * (8 * |TokenBytes(t)| + 1)
  {
    match t
    case Literal(b) =>
      assert L[b] <= 9;
    case Match(len, d) =>
      var m := len - MIN_MATCH;
      assert L[LenSym(m)] + LenExtra(m) <= 13;
      assert D[DistSym(d - 1)] == 5;
  }

  lemma {:induction false} FixedTokensSize(L: seq<nat>, D: seq<nat>, ts: seq<Token>)
    requires FixedLengths(L, D) && AllStorable(ts) && AllEncodable(L, D, ts)
    ensures 538 * |TokensBits(L, D, ts)| + 640 * |ts| <= 693 * (8 * |TokensBytes(ts)| + |ts|)
  {
    if ts != [] {
      TailEncodable(L, D, ts);
      FixedTokenSize(L, D, ts[0]);
      FixedTokensSize(L, D, ts[1..]);
    }
  }

  /** The recorded tokens come from a code buffer that is not over-full. */
  ghost predicate Recordable(ts: seq<Token>) {
    AllStorable(ts) && 8 * |TokensBytes(ts)| + |ts| < 8 * CODE_BUF_SIZE
  }

  /** A block with fixed codes always fits the output buffer. */
  lemma FixedBlockFits(f: Form, ts: seq<Token>)
    requires f.Static? && GoodForm(f, ts) && Recordable(ts)
    ensures |FormBits(f, ts)| + 200 < 8 * BLOCK_ROOM
  {
    FixedTokensSize(f.L, f.D, ts);
    assert f.L[256] == 7;
  }

  /** A block is no longer than there is room for. */
  ghost predicate Compact(f: Form, ts: seq<Token>) {
    (GoodForm(f, ts) && |FormBits(f, ts)| + 200 < 8 * BLOCK_ROOM) == true
  }

  /** A block with codes made for it fits, too. */
  lemma DynamicBlockFits(f: Form, ts: seq<Token>, FL: seq<nat>, FD: seq<nat>)
    requires f.Dynamic? && GoodForm(f, ts) && Recordable(ts) && CheapFor(ts, f.L, f.D)
    requires FixedLengths(FL, FD)
    ensures |FormBits(f, ts)| + 200 < 8 * BLOCK_ROOM
  {
    FixedEncodes(FL, FD, ts);
    DynamicHardlyLonger(ts, f.L, f.D, FL, FD);
    FixedTokensSize(FL, FD, ts);
    HeaderSize(f.h, f.L[..f.h.nlit] + f.D[..f.h.ndist]);
  }

  lemma FormIsCompact(f: Form, ts: seq<Token>)
    requires GoodForm(f, ts) && Recordable(ts) && Tailored(ts, f)
    ensures Compact(f, ts)
  {
    if f.Static? {
      FixedBlockFits(f, ts);
    } else {
      var c := FixedCodes(false);
      DynamicBlockFits(f, ts, c.lit, c.dist);
    }
  }

  // ---- Which form a block takes

  /** A compressed block made the way it should be: with the fixed codes, or with codes of its own. */
  ghost predicate FormFor(flags: Flags, ts: seq<Token>, f: Form) {
    (&& GoodForm(f, ts) && (f.Static? <==> flags.forceStatic || TotalSize(ts) < 48)
     && AllStorable(ts) && Tailored(ts, f)) == true
  }

  /** `n` bits of a compressed block from bit `at` on are taken to be no shorter than `size` bytes. */
  predicate Expanded(at: nat, n: nat, size: nat) {
    size != 0 && (at + n) / 8 - at / 8 + 1 >= size
  }

  /**
   The block `blk` at bit `at` for tokens that stand for `data`: stored when that is asked for
   or compression does not pay, provided that the window still holds the data; compressed otherwise.
   */
  ghost predicate Chosen(flags: Flags, inWindow: bool, final: bool, at: nat, ts: seq<Token>, data: seq<Byte>,
                         blk: seq<bool>) {
    forall k {:trigger Shown(blk, k)} :: Shown(blk, k) ==>
      if flags.forceRaw && inWindow then IsStored(final, at, data, blk)
      else exists f :: ChosenOver(f, flags, inWindow, final, at, ts, data, blk)
  }

  ghost predicate ChosenOver(f: Form, flags: Flags, inWindow: bool, final: bool, at: nat, ts: seq<Token>,
                             data: seq<Byte>, blk: seq<bool>) {
    (&& FormFor(flags, ts, f)
     && if inWindow && Expanded(at + 1, |FormBits(f, ts)|, TotalSize(ts)) then IsStored(final, at, data, blk)
        else blk == [final] + FormBits(f, ts)) == true
  }

  ghost predicate IsStored(final: bool, at: nat, data: seq<Byte>, blk: seq<bool>) {
    (|data| < 0x1_0000 && blk == StoredBits(final, at, data)) == true
  }

  /** A block is never longer than its data stored as it is, if that is at hand. */
  lemma ChosenIsNotLonger(flags: Flags, final: bool, at: nat, ts: seq<Token>, data: seq<Byte>, blk: seq<bool>)
    requires Chosen(flags, true, final, at, ts, data, blk) && TotalSize(ts) == |data| < 0x1_0000
    ensures |blk| <= |StoredBits(final, at, data)|
  {
    assert Shown(blk, 0);
    if !flags.forceRaw {
      var f :| ChosenOver(f, flags, true, final, at, ts, data, blk);
      if data == [] {
        NothingToSend(flags, ts, f);
      } else if !Expanded(at + 1, |FormBits(f, ts)|, |data|) {
        PaysOff(at + 1, |FormBits(f, ts)|, |data|);
      }
    }
  }

  lemma PaysOff(at: nat, n: nat, size: nat)
    requires size != 0 && !Expanded(at, n, size)
    ensures n < 8 * size
  {
  }

  lemma NothingToSend(flags: Flags, ts: seq<Token>, f: Form)
    requires FormFor(flags, ts, f) && TotalSize(ts) == 0
    ensures |FormBits(f, ts)| == 9
  {
    assert ts == [];
    assert f.Static? && TokensBits(f.L, f.D, ts) == [] && f.L[256] == 7;
  }

  /** The two bits behind the first say which form it is. */
  lemma ChosenType(flags: Flags, inWindow: bool, final: bool, at: nat, ts: seq<Token>, data: seq<Byte>, blk: seq<bool>)
    requires Chosen(flags, inWindow, final, at, ts, data, blk)
    ensures |blk| >= 3 && blk[0] == final
    ensures flags.forceRaw && inWindow ==> Val(blk[1..], 2) == 0
    ensures !inWindow ==> Val(blk[1..], 2) == if flags.forceStatic || TotalSize(ts) < 48 then 1 else 2
    ensures Val(blk[1..], 2) == 0 ==> inWindow && IsStored(final, at, data, blk)
    ensures Val(blk[1..], 2) == 1 ==> flags.forceStatic || TotalSize(ts) < 48
    ensures Val(blk[1..], 2) == 2 ==> !flags.forceStatic && TotalSize(ts) >= 48
  {
    assert Shown(blk, 0);
    if flags.forceRaw && inWindow {
      StoredType(final, at, data, blk);
    } else {
      var f :| ChosenOver(f, flags, inWindow, final, at, ts, data, blk);
      ChosenOverType(f, flags, inWindow, final, at, ts, data, blk);
    }
  }

  lemma ChosenOverType(f: Form, flags: Flags, inWindow: bool, final: bool, at: nat, ts: seq<Token>, data: seq<Byte>,
                       blk: seq<bool>)
    requires ChosenOver(f, flags, inWindow, final, at, ts, data, blk)
    ensures |blk| >= 3 && blk[0] == final
    ensures (inWindow && IsStored(final, at, data, blk) && Val(blk[1..], 2) == 0)
         || Val(blk[1..], 2) == if flags.forceStatic || TotalSize(ts) < 48 then 1 else 2
    ensures !inWindow ==> Val(blk[1..], 2) != 0
  {
    if inWindow && Expanded(at + 1, |FormBits(f, ts)|, TotalSize(ts)) {
      StoredType(final, at, data, blk);
    } else {
      FormType(final, f, ts);
    }
  }

  lemma StoredType(final: bool, at: nat, data: seq<Byte>, blk: seq<bool>)
    requires IsStored(final, at, data, blk)
    ensures |blk| >= 3 && blk[0] == final && Val(blk[1..], 2) == 0
  {
    var rest := Padding(at + 3) + LengthHead(|data|) + BytesToBits(data);
    FourParts(BlockStart(final, 0), Padding(at + 3), LengthHead(|data|), BytesToBits(data), []);
    assert blk == BlockStart(final, 0) + rest;
    StartDecodes(final, 0, rest);
  }

  lemma FormType(final: bool, f: Form, ts: seq<Token>)
    requires GoodForm(f, ts)
    ensures var blk := [final] + FormBits(f, ts);
            |blk| >= 3 && blk[0] == final && Val(blk[1..], 2) == if f.Static? then 1 else 2
  {
    var kind, body := if f.Static? then 1 else 2, BodyBits(f.L, f.D, ts);
    var rest := if f.Static? then body else HeaderBits(f.h) + body;
    assert FormBits(f, ts) == ToBits(kind, 2) + rest by {
      if f.Dynamic? {
        Regroup(ToBits(2, 2), HeaderBits(f.h), body);
      }
    }
    Regroup([final], ToBits(kind, 2), rest);
    StartDecodes(final, kind, rest);
  }

  // ---- Output

  /** The compressor's output side. */
  class Output {
    const b: Blocks
    var blockIndex: nat
    var sink: seq<Byte>
    // The deflate bits so far and what they stand for.
    ghost var bits: seq<bool>
    ghost var data: seq<Byte>

    constructor (b: Blocks)
      requires b.Separate() && b.w.bitsIn == 0
      ensures this.b == b && blockIndex == 0 && sink == [] && bits == [] && data == []
    {
      this.b, blockIndex, sink, bits, data := b, 0, [], [], [];
    }

    ghost predicate Shape() {
      (b.Separate() && b.dict.Length == DICT_SIZE + MAX_MATCH - 1 && b.w.out.Length == BitWriter.OUT_BUF_SIZE) == true
    }

    /** The dictionary holds `bs` from position `at` on. */
    ghost predicate InDict(at: nat, bs: seq<Byte>)
      requires b.dict.Length >= DICT_SIZE
      reads b.dict
    {
      forall i :: 0 <= i < |bs| ==> b.dict[(at + i) % DICT_SIZE] == bs[i]
    }

    /** A stored block: the bytes come from the dictionary. */
    method PutStored(at: nat, n: nat, ghost final: bool, ghost start: seq<bool>, ghost bs: seq<Byte>)
      requires Shape() && b.w.Valid() && n == |bs| < 0x1_0000 && InDict(at, bs) && b.w.bits == start + [final]
      modifies b.w`pos, b.w`buffer, b.w`bitsIn, b.w`bits, b.w.out
      ensures b.w.Valid() && b.w.bits == start + StoredBits(final, |start|, bs)
    {
      PutStoredHead(n, final, start);
      ghost var head := b.w.bits;
      PutDict(at, n, bs);
      FourParts([final] + ToBits(0, 2), Padding(|start| + 3), LengthHead(n), BytesToBits(bs), []);
      StoredParts(start, [final] + ToBits(0, 2), Padding(|start| + 3), LengthHead(n), BytesToBits(bs));
    }

    method PutStoredHead(n: nat, ghost final: bool, ghost start: seq<bool>)
      requires Shape() && b.w.Valid() && n < 0x1_0000 && b.w.bits == start + [final]
      modifies b.w`pos, b.w`buffer, b.w`bitsIn, b.w`bits, b.w.out
      ensures b.w.Valid()
      ensures b.w.bits == start + ([final] + ToBits(0, 2)) + Padding(|start| + 3) + LengthHead(n)
    {
      b.StartBlock(0);
      Regroup(start, [final], ToBits(0, 2));
      assert |b.w.bits| == |start| + 3;
      b.w.Align();
      PutLengths(n);
    }

    method PutLengths(n: nat)
      requires b.w.Valid() && n < 0x1_0000
      modifies b.w`pos, b.w`buffer, b.w`bitsIn, b.w`bits, b.w.out
      ensures b.w.Valid() && b.w.bits == old(b.w.bits) + LengthHead(n)
    {
      ghost var head := b.w.bits;
      Pow2Values();
      b.w.PutBits(n, 16);
      b.w.PutBits(0xFFFF - n, 16);
      Regroup(head, ToBits(n, 16), ToBits(0xFFFF - n, 16));
    }

    method PutDict(at: nat, n: nat, ghost bs: seq<Byte>)
      requires Shape() && b.w.Valid() && n == |bs| && InDict(at, bs)
      modifies b.w`pos, b.w`buffer, b.w`bitsIn, b.w`bits, b.w.out
      ensures b.w.Valid() && b.w.bits == old(b.w.bits) + BytesToBits(bs)
    {
      Pow2Values();
      var i: nat := 0;
      ghost var start := b.w.bits;
      assert bs[..0] == [];
      while i < n
        invariant i <= n && b.w.Valid() && InDict(at, bs) && b.w.bits == start + BytesToBits(bs[..i])
      {
        assert bs[..i + 1] == bs[..i] + [bs[i]];
        BytesToBitsSnoc(bs[..i], bs[i]);
        Regroup(start, BytesToBits(bs[..i]), ToBits(bs[i], 8));
        b.w.PutBits(b.dict[(at + i) % DICT_SIZE], 8);
        i := i + 1;
      }
      assert bs[..n] == bs;
    }

    /** `tdefl_compress_block` */
    method CompressBlock(staticBlock: bool, ghost bs: seq<Byte>, ghost ts: seq<Token>, ghost left: seq<bool>)
      returns (ok: bool, ghost f: Form)
      requires Shape() && b.w.Valid() && b.Recorded(bs) && Pending(bs, ts, left) && (staticBlock || b.Counted(ts))
      modifies b.w`pos, b.w`buffer, b.w`bitsIn, b.w`bits, b.w.out
      modifies b.lit.count, b.lit.codes, b.lit.sizes, b.dist.codes, b.dist.sizes, b.cl.count, b.cl.codes, b.cl.sizes
      ensures b.w.Valid() && b.Recorded(bs) && Compact(f, ts) && b.w.bits == old(b.w.bits) + FormBits(f, ts)
      ensures ok <==> b.w.Complete()
      ensures (staticBlock <==> f.Static?) && AllStorable(ts) && Tailored(ts, f)
    {
      if staticBlock {
        f := b.CompressStatic(bs, ts, left);
      } else {
        f := b.CompressDynamic(bs, ts, left);
      }
      FormIsCompact(f, ts);
      b.w.RoomLeft();
      ok := b.w.pos < b.w.end;
    }

    /** A stored block in place of whatever was written since `start`. */
    method WriteStored(at: nat, pos: nat, buffer: nat, bitsIn: nat, ghost final: bool, ghost start: seq<bool>,
                       ghost data: seq<Byte>)
      requires Shape() && b.w.Valid() && SavedAt(pos, buffer, bitsIn, start + [final], b.w.end)
          && start + [final] <= b.w.bits
      requires b.lz.totalBytes == |data| && InWindow(at, data)
      requires b.w.end == BLOCK_ROOM && |start| < 24
      modifies b.w`pos, b.w`buffer, b.w`bitsIn, b.w`bits, b.w.out
      ensures b.w.Valid() && b.w.bits == start + StoredBits(final, |start|, data) && b.w.Complete()
    {
      b.w.Rewind(pos, buffer, bitsIn, start + [final]);
      PutStored(at, b.lz.totalBytes, final, start, data);
    }

    /** When the compressed block did not fit: once more with fixed codes. */
    method Fallback(ok: bool, pos: nat, buffer: nat, bitsIn: nat, ghost saved: seq<bool>, ghost f: Form,
                    ghost bs: seq<Byte>, ghost ts: seq<Token>, ghost left: seq<bool>)
      returns (ghost f': Form)
      requires Shape() && b.w.Valid() && b.Recorded(bs) && Pending(bs, ts, left)
      requires SavedAt(pos, buffer, bitsIn, saved, b.w.end) && saved <= b.w.bits && |saved| <= 24
          && b.w.end == BLOCK_ROOM
      requires GoodForm(f, ts) && b.w.bits == saved + FormBits(f, ts) && (ok ==> b.w.Complete() && Compact(f, ts))
      modifies b.w`pos, b.w`buffer, b.w`bitsIn, b.w`bits, b.w.out
      modifies b.lit.count, b.lit.codes, b.lit.sizes, b.dist.codes, b.dist.sizes, b.cl.count, b.cl.codes, b.cl.sizes
      ensures b.w.Valid() && Compact(f', ts) && b.w.bits == saved + FormBits(f', ts) && b.w.Complete()
      ensures if ok then f' == f else f'.Static?
    {
      f' := f;
      if !ok {
        f' := CompressFixed(pos, buffer, bitsIn, saved, bs, ts, left);
      }
    }

    method CompressFixed(pos: nat, buffer: nat, bitsIn: nat, ghost saved: seq<bool>, ghost bs: seq<Byte>,
                         ghost ts: seq<Token>, ghost left: seq<bool>)
      returns (ghost f: Form)
      requires Shape() && b.w.Valid() && b.Recorded(bs) && Pending(bs, ts, left)
      requires SavedAt(pos, buffer, bitsIn, saved, b.w.end) && saved <= b.w.bits && |saved| <= 24
          && b.w.end == BLOCK_ROOM
      modifies b.w`pos, b.w`buffer, b.w`bitsIn, b.w`bits, b.w.out
      modifies b.lit.count, b.lit.codes, b.lit.sizes, b.dist.codes, b.dist.sizes, b.cl.count, b.cl.codes, b.cl.sizes
      ensures b.w.Valid() && Compact(f, ts) && b.w.bits == saved + FormBits(f, ts) && b.w.Complete() && f.Static?
    {
      b.w.Rewind(pos, buffer, bitsIn, saved);
      var ok;
      ok, f := CompressBlock(true, bs, ts, left);
      FixedBlockFits(f, ts);
    }

    /** The bytes the block stands for are still in the dictionary. */
    ghost predicate InWindow(at: nat, data: seq<Byte>)
      reads b.dict
    {
      (Shape() && |data| < 0x1_0000 && InDict(at, data)) == true
    }

    /** Replaces the block by a stored one, or makes sure that it fits. */
    method Choose(stored: bool, ok: bool, at: nat, pos: nat, buffer: nat, bitsIn: nat, ghost final: bool,
                  ghost start: seq<bool>,
                  ghost f: Form, ghost bs: seq<Byte>, ghost ts: seq<Token>, ghost left: seq<bool>, ghost out: seq<Byte>)
      returns (ghost blk: seq<bool>)
      requires Shape() && b.w.Valid() && b.Recorded(bs) && Pending(bs, ts, left) && AllFit(ts, |out|)
      requires b.lz.totalBytes == TotalSize(ts) && b.w.end == BLOCK_ROOM && |start| < 24
      requires SavedAt(pos, buffer, bitsIn, start + [final], b.w.end) && start + [final] <= b.w.bits
      requires stored ==> InWindow(at, Expand(out, ts)[|out|..])
      requires !stored ==> Compact(f, ts) && b.w.bits == start + [final] + FormBits(f, ts) && (ok <==> b.w.Complete())
      modifies b.w`pos, b.w`buffer, b.w`bitsIn, b.w`bits, b.w.out
      modifies b.lit.count, b.lit.codes, b.lit.sizes, b.dist.codes, b.dist.sizes, b.cl.count, b.cl.codes, b.cl.sizes
      ensures b.w.Valid() && b.w.bits == start + blk && BlockReads(|start|, blk, final, out, Expand(out, ts))
      ensures b.w.Complete() && Roomy(b.w.bits)
      ensures if stored then IsStored(final, |start|, Expand(out, ts)[|out|..], blk)
              else ok ==> blk == [final] + FormBits(f, ts)
    {
      if stored {
        blk := ChooseStored(at, pos, buffer, bitsIn, final, start, ts, out);
      } else {
        ghost var f' := Fallback(ok, pos, buffer, bitsIn, start + [final], f, bs, ts, left);
        blk := CompressedDone(f', final, start, ts, out);
      }
    }

    method ChooseStored(at: nat, pos: nat, buffer: nat, bitsIn: nat, ghost final: bool, ghost start: seq<bool>,
                        ghost ts: seq<Token>, ghost out: seq<Byte>)
      returns (ghost blk: seq<bool>)
      requires Shape() && b.w.Valid() && AllFit(ts, |out|)
      requires b.lz.totalBytes == TotalSize(ts) && b.w.end == BLOCK_ROOM && |start| < 24
      requires SavedAt(pos, buffer, bitsIn, start + [final], b.w.end) && start + [final] <= b.w.bits
      requires InWindow(at, Expand(out, ts)[|out|..])
      modifies b.w`pos, b.w`buffer, b.w`bitsIn, b.w`bits, b.w.out
      ensures b.w.Valid() && b.w.bits == start + blk && BlockReads(|start|, blk, final, out, Expand(out, ts))
      ensures b.w.Complete() && Roomy(b.w.bits) && IsStored(final, |start|, Expand(out, ts)[|out|..], blk)
    {
      ghost var data := Expand(out, ts)[|out|..];
      ExpandSize(out, ts);
      WriteStored(at, pos, buffer, bitsIn, final, start, data);
      blk := StoredBits(final, |start|, data);
      StoredReads(|start|, final, data, out);
      assert out + data == Expand(out, ts);
      StoredIsRoomy(final, start, data);
    }

    lemma DictApart()
      requires Shape()
      ensures var d := b.dict as object;
              && d != b.w as object && d != b.w.out as object
              && d != b.lit.count as object && d != b.lit.codes as object && d != b.lit.sizes as object
              && d != b.dist.codes as object && d != b.dist.sizes as object
              && d != b.cl.count as object && d != b.cl.codes as object && d != b.cl.sizes as object
    {
    }

    /** The first attempt at a block always fits, so that the fallback below is never taken. */
    method FirstTry(useRaw: bool, staticBlock: bool, ghost bs: seq<Byte>, ghost ts: seq<Token>, ghost left: seq<bool>)
      returns (ok: bool, ghost f: Form)
      requires Shape() && b.w.Valid() && b.Recorded(bs) && Pending(bs, ts, left) && b.Counted(ts)
      requires b.w.end == BLOCK_ROOM && |b.w.bits| <= 24
      modifies b.w`pos, b.w`buffer, b.w`bitsIn, b.w`bits, b.w.out
      modifies b.lit.count, b.lit.codes, b.lit.sizes, b.dist.codes, b.dist.sizes, b.cl.count, b.cl.codes, b.cl.sizes
      ensures b.w.Valid() && b.Recorded(bs) && old(b.w.bits) <= b.w.bits && (ok <==> !useRaw)
      ensures !useRaw ==> Compact(f, ts) && b.w.bits == old(b.w.bits) + FormBits(f, ts) && (ok <==> b.w.Complete())
      ensures !useRaw ==> (f.Static? <==> staticBlock) && AllStorable(ts) && Tailored(ts, f)
      ensures !useRaw ==> b.w.pos == |b.w.bits| / 8
    {
      ok, f := false, Form.Static([], []);
      if !useRaw {
        ok, f := CompressBlock(staticBlock, bs, ts, left);
      }
    }

    /** The block behind its first bit. */
    method WriteBody(flags: Flags, lookaheadPos: nat, dictPos: nat, dictSize: nat, ghost final: bool,
                     ghost start: seq<bool>,
                     ghost bs: seq<Byte>, ghost ts: seq<Token>, ghost left: seq<bool>, ghost out: seq<Byte>)
      returns (ghost blk: seq<bool>)
      requires Shape() && b.w.Valid() && b.Recorded(bs) && Pending(bs, ts, left) && b.Counted(ts) && AllFit(ts, |out|)
      requires b.lz.totalBytes == TotalSize(ts) && b.w.end == BLOCK_ROOM && |start| < 24 && dictPos <= lookaheadPos
      requires b.w.bits == start + [final]
      requires lookaheadPos - dictPos <= dictSize ==> InWindow(dictPos, Expand(out, ts)[|out|..])
      modifies b.w`pos, b.w`buffer, b.w`bitsIn, b.w`bits, b.w.out
      modifies b.lit.count, b.lit.codes, b.lit.sizes, b.dist.codes, b.dist.sizes, b.cl.count, b.cl.codes, b.cl.sizes
      ensures b.w.Valid() && b.w.bits == start + blk && BlockReads(|start|, blk, final, out, Expand(out, ts))
      ensures b.w.Complete() && Roomy(b.w.bits)
      ensures Chosen(flags, lookaheadPos - dictPos <= dictSize, final, |start|, ts, Expand(out, ts)[|out|..], blk)
    {
      DictApart();
      SaveState();
      var pos, buffer, bitsIn := b.w.pos, b.w.buffer, b.w.bitsIn;
      var inWindow := lookaheadPos - dictPos <= dictSize;
      var useRaw := flags.forceRaw && inWindow;
      var ok;
      ghost var f;
      ok, f := FirstTry(useRaw, flags.forceStatic || b.lz.totalBytes < 48, bs, ts, left);
      var expanded := useRaw || (b.lz.totalBytes != 0 && b.w.pos - pos + 1 >= b.lz.totalBytes);
      if ok {
        HowLong(flags, inWindow, final, start, f, ts, pos, b.w.pos, expanded && inWindow);
      }
      blk := ChooseFor(flags, inWindow, expanded && inWindow, ok, dictPos, pos, buffer, bitsIn, final, start, f, bs, ts,
                       left, out);
    }

    method ChooseFor(ghost flags: Flags, ghost inWindow: bool, stored: bool, ok: bool, at: nat, pos: nat, buffer: nat,
                     bitsIn: nat, ghost final: bool, ghost start: seq<bool>, ghost f: Form,
                     ghost bs: seq<Byte>, ghost ts: seq<Token>, ghost left: seq<bool>, ghost out: seq<Byte>)
      returns (ghost blk: seq<bool>)
      requires Shape() && b.w.Valid() && b.Recorded(bs) && Pending(bs, ts, left) && AllFit(ts, |out|)
      requires b.lz.totalBytes == TotalSize(ts) && b.w.end == BLOCK_ROOM && |start| < 24
      requires SavedAt(pos, buffer, bitsIn, start + [final], b.w.end) && start + [final] <= b.w.bits
      requires stored ==> InWindow(at, Expand(out, ts)[|out|..])
      requires !stored ==> Compact(f, ts) && b.w.bits == start + [final] + FormBits(f, ts) && (ok <==> b.w.Complete())
      requires !stored ==> ok
      requires ChosenBy(flags, inWindow, |start|, ts, f, stored)
      modifies b.w`pos, b.w`buffer, b.w`bitsIn, b.w`bits, b.w.out
      modifies b.lit.count, b.lit.codes, b.lit.sizes, b.dist.codes, b.dist.sizes, b.cl.count, b.cl.codes, b.cl.sizes
      ensures b.w.Valid() && b.w.bits == start + blk && BlockReads(|start|, blk, final, out, Expand(out, ts))
      ensures b.w.Complete() && Roomy(b.w.bits)
      ensures Chosen(flags, inWindow, final, |start|, ts, Expand(out, ts)[|out|..], blk)
    {
      blk := Choose(stored, ok, at, pos, buffer, bitsIn, final, start, f, bs, ts, left, out);
      IsChosen(flags, inWindow, final, |start|, ts, Expand(out, ts)[|out|..], blk, f, stored);
    }

    /** What the positions in the output buffer say about the length of a compressed block. */
    lemma HowLong(flags: Flags, inWindow: bool, final: bool, start: seq<bool>, f: Form, ts: seq<Token>, pos: nat,
                  pos': nat, stored: bool)
      requires GoodForm(f, ts) && (f.Static? <==> flags.forceStatic || TotalSize(ts) < 48)
      requires AllStorable(ts) && Tailored(ts, f)
      requires pos == |start + [final]| / 8 && pos' == |start + [final] + FormBits(f, ts)| / 8
      requires !(flags.forceRaw && inWindow)
      requires stored <==> inWindow && TotalSize(ts) != 0 && pos' - pos + 1 >= TotalSize(ts)
      ensures ChosenBy(flags, inWindow, |start|, ts, f, stored)
    {
    }

    /** Either way of coding the recorded tokens, or their expansion as it is. */
    method WriteChunk(final: bool, flags: Flags, lookaheadPos: nat, dictPos: nat, dictSize: nat,
                      ghost bs: seq<Byte>, ghost ts: seq<Token>, ghost left: seq<bool>, ghost out: seq<Byte>)
      returns (ghost blk: seq<bool>)
      requires Shape() && b.w.Valid() && b.Recorded(bs) && Pending(bs, ts, left) && b.Counted(ts) && AllFit(ts, |out|)
      requires b.lz.totalBytes == TotalSize(ts) && b.w.end == BLOCK_ROOM && |b.w.bits| < 24 && dictPos <= lookaheadPos
      requires lookaheadPos - dictPos <= dictSize ==> InWindow(dictPos, Expand(out, ts)[|out|..])
      modifies b.w`pos, b.w`buffer, b.w`bitsIn, b.w`bits, b.w.out
      modifies b.lit.count, b.lit.codes, b.lit.sizes, b.dist.codes, b.dist.sizes, b.cl.count, b.cl.codes, b.cl.sizes
      ensures b.w.Valid() && b.w.bits == old(b.w.bits) + blk
      ensures BlockReads(|old(b.w.bits)|, blk, final, out, Expand(out, ts))
      ensures b.w.Complete() && Roomy(b.w.bits)
      ensures Chosen(flags, lookaheadPos - dictPos <= dictSize, final, |old(b.w.bits)|, ts, Expand(out, ts)[|out|..],
                     blk)
    {
      ghost var start := b.w.bits;
      DictApart();
      PutFinal(final);
      blk := WriteBody(flags, lookaheadPos, dictPos, dictSize, final, start, bs, ts, left, out);
    }

    method PutFinal(final: bool)
      requires b.w.Valid()
      modifies b.w`pos, b.w`buffer, b.w`bitsIn, b.w`bits, b.w.out
      ensures b.w.Valid() && b.w.bits == old(b.w.bits) + [final]
    {
      var v := if final then 1 else 0;
      assert Pow2(1) == 2;
      assert ToBits(v, 1) == [final] + ToBits(v / 2, 0);
      b.w.PutBits(v, 1);
    }

    lemma SaveState()
      requires b.w.Valid()
      ensures SavedAt(b.w.pos, b.w.buffer, b.w.bitsIn, b.w.bits, b.w.end)
    {
    }

    // ---- What goes around the blocks

    /** The two bytes in front of a zlib stream. */
    method PutLeader(flags: Flags)
      requires Shape() && b.w.Valid()
      modifies b.w`pos, b.w`buffer, b.w`bitsIn, b.w`bits, b.w.out
      ensures b.w.Valid()
      ensures b.w.bits == old(b.w.bits) + (if flags.zlibHeader && blockIndex == 0 then BytesToBits(ZLIB_HEADER) else [])
    {
      Pow2Values();
      if flags.zlibHeader && blockIndex == 0 {
        ghost var start := b.w.bits;
        HeaderBytes();
        b.w.PutBits(0x78, 8);
        b.w.PutBits(0x01, 8);
        Regroup(start, ToBits(0x78, 8), ToBits(0x01, 8));
      }
    }

    /** An empty stored block, so that all output so far can be decoded. */
    method PutEmptyBlock()
      requires Shape() && b.w.Valid()
      modifies b.w`pos, b.w`buffer, b.w`bitsIn, b.w`bits, b.w.out
      ensures b.w.Valid() && b.w.bits == old(b.w.bits) + StoredBits(false, |old(b.w.bits)|, [])
    {
      ghost var start := b.w.bits;
      PutZeros();
      b.w.Align();
      PutLengths(0);
      EmptyStored(start);
    }

    method PutZeros()
      requires b.w.Valid()
      modifies b.w`pos, b.w`buffer, b.w`bitsIn, b.w`bits, b.w.out
      ensures b.w.Valid() && b.w.bits == old(b.w.bits) + ([false] + ToBits(0, 2))
    {
      assert Pow2(3) == 8;
      ZeroBits();
      b.w.PutBits(0, 3);
    }

    /** The end of the last byte, and the checksum of a zlib stream. */
    method PutTrailer(flags: Flags, adler: nat)
      requires Shape() && b.w.Valid() && adler < 0x1_0000_0000
      modifies b.w`pos, b.w`buffer, b.w`bitsIn, b.w`bits, b.w.out
      ensures b.w.Valid() && b.w.bitsIn == 0
      ensures b.w.bits == old(b.w.bits) + Padding(|old(b.w.bits)|) + BytesToBits(Trailer(flags, adler))
    {
      b.w.Align();
      if flags.zlibHeader {
        PutAdler(adler);
      }
    }

    method PutAdler(adler: nat)
      requires b.w.Valid() && adler < 0x1_0000_0000 && |b.w.bits| % 8 == 0
      modifies b.w`pos, b.w`buffer, b.w`bitsIn, b.w`bits, b.w.out
      ensures b.w.Valid() && b.w.bitsIn == 0 && b.w.bits == old(b.w.bits) + BytesToBits(BigEndian(adler))
    {
      var a := adler;
      ghost var start := b.w.bits;
      ghost var sent: seq<Byte> := [];
      for i := 0 to 4
        invariant b.w.Valid() && b.w.bits == start + BytesToBits(sent) && SentOf(adler, a, sent, i)
      {
        a, sent := PutTop(adler, a, sent, i, start);
      }
      AllSent(adler, a, sent);
      StillWhole(|start|, 0);
      WholeBytes();
    }

    method PutTop(ghost adler: nat, a: nat, ghost sent: seq<Byte>, ghost i: nat, ghost start: seq<bool>)
      returns (a': nat, ghost sent': seq<Byte>)
      requires b.w.Valid() && b.w.bits == start + BytesToBits(sent) && i < 4 && adler < 0x1_0000_0000
      requires SentOf(adler, a, sent, i)
      modifies b.w`pos, b.w`buffer, b.w`bitsIn, b.w`bits, b.w.out
      ensures b.w.Valid() && b.w.bits == start + BytesToBits(sent') && SentOf(adler, a', sent', i + 1)
    {
      var top := a / 0x100_0000 % 256;
      TopMoves(a, 4 - i, sent);
      PutByte(top, sent, start);
      a' := a * 256 % 0x1_0000_0000;
      sent' := sent + [top];
    }

    /** `i` bytes of `adler` have been sent, and the others are on top of `a`. */
    ghost predicate SentOf(adler: nat, a: nat, sent: seq<Byte>, i: nat)
      requires adler < 0x1_0000_0000
    {
      (i <= 4 && |sent| == i && a < 0x1_0000_0000 && sent + BigEndian(a)[..4 - i] == BigEndian(adler)) == true
    }

    lemma AllSent(adler: nat, a: nat, sent: seq<Byte>)
      requires adler < 0x1_0000_0000 && SentOf(adler, a, sent, 4)
      ensures sent == BigEndian(adler)
    {
    }

    method PutByte(c: Byte, ghost sent: seq<Byte>, ghost start: seq<bool>)
      requires b.w.Valid() && b.w.bits == start + BytesToBits(sent)
      modifies b.w`pos, b.w`buffer, b.w`bitsIn, b.w`bits, b.w.out
      ensures b.w.Valid() && b.w.bits == start + BytesToBits(sent + [c])
    {
      Pow2Values();
      BytesToBitsSnoc(sent, c);
      Regroup(start, BytesToBits(sent), ToBits(c, 8));
      b.w.PutBits(c, 8);
    }

    lemma TopMoves(a: nat, n: nat, sent: seq<Byte>)
      requires a < 0x1_0000_0000 && 1 <= n <= 4
      ensures sent + BigEndian(a)[..n] == (sent + [a / 0x100_0000 % 256]) + BigEndian(a * 256 % 0x1_0000_0000)[..n - 1]
    {
      NextByte(a);
      var x, y := BigEndian(a), BigEndian(a * 256 % 0x1_0000_0000);
      assert y[..n - 1] == y[..3][..n - 1] == x[1..][..n - 1];
      assert x[..n] == [x[0]] + x[1..][..n - 1];
    }

    // ---- The whole of `tdefl_flush_block`

    /** The output so far decodes to `data`. */
    ghost predicate StreamOk(flags: Flags)
      reads this, b.w, b.w.out
    {
      (&& Shape() && b.w.Valid()
       && (blockIndex == 0 ==> b.w.bitsIn == 0 && sink == [] && bits == [])
       && Reads(bits, data) && SinkHolds(sink, ToBits(b.w.buffer, b.w.bitsIn), StreamHeader(flags, blockIndex),
           bits)) == true
    }

    /** What a flush adds behind the block. */
    method PutTail(mode: FlushMode, flags: Flags, adler: nat)
      requires Shape() && b.w.Valid() && adler < 0x1_0000_0000
      modifies b.w`pos, b.w`buffer, b.w`bitsIn, b.w`bits, b.w.out
      ensures b.w.Valid() && b.w.bits == old(b.w.bits) + TailBits(mode, flags, adler, |old(b.w.bits)|)
      ensures !mode.NoFlush? ==> b.w.bitsIn == 0
    {
      ghost var start := b.w.bits;
      match mode
      case NoFlush =>
        assert start + [] == start;
      case Finish =>
        PutTrailer(flags, adler);
        Regroup(start, Padding(|start|), BytesToBits(Trailer(flags, adler)));
      case _ =>
        PutEmptyBlock();
        WholeBytes();
    }

    lemma WholeBytes()
      requires b.w.Valid() && |b.w.bits| % 8 == 0
      ensures b.w.bitsIn == 0
    {
    }

    /** Everything between emptying the output buffer and handing it over. */
    method WriteBlock(mode: FlushMode, flags: Flags, lookaheadPos: nat, dictPos: nat, dictSize: nat, adler: nat,
                      ghost bs: seq<Byte>, ghost ts: seq<Token>, ghost left: seq<bool>, ghost out: seq<Byte>)
      returns (ghost blk: seq<bool>)
      requires Shape() && b.w.Valid() && b.Recorded(bs) && Pending(bs, ts, left) && b.Counted(ts) && AllFit(ts, |out|)
      requires b.lz.totalBytes == TotalSize(ts) && b.w.end == BLOCK_ROOM && |b.w.bits| < 8 && dictPos <= lookaheadPos
      requires lookaheadPos - dictPos <= dictSize ==> InWindow(dictPos, Expand(out, ts)[|out|..])
      requires adler < 0x1_0000_0000
      modifies b.w`pos, b.w`buffer, b.w`bitsIn, b.w`bits, b.w.out
      modifies b.lit.count, b.lit.codes, b.lit.sizes, b.dist.codes, b.dist.sizes, b.cl.count, b.cl.codes, b.cl.sizes
      ensures b.w.Valid() && Flushed(old(b.w.bits) + Leader(flags, blockIndex), blk, b.w.bits, mode, flags, adler,
          out, Expand(out, ts))
      ensures (!mode.NoFlush? ==> b.w.bitsIn == 0) && b.w.Complete()
      ensures Chosen(flags, lookaheadPos - dictPos <= dictSize, mode.Finish?,
                     |old(b.w.bits) + Leader(flags, blockIndex)|, ts, Expand(out, ts)[|out|..], blk)
    {
      DictApart();
      PutLeader(flags);
      assert b.Recorded(bs) && b.Counted(ts);
      blk := WriteChunkAndTail(mode, flags, lookaheadPos, dictPos, dictSize, adler, bs, ts, left, out, b.w.bits);
    }

    method WriteChunkAndTail(mode: FlushMode, flags: Flags, lookaheadPos: nat, dictPos: nat, dictSize: nat, adler: nat,
                             ghost bs: seq<Byte>, ghost ts: seq<Token>, ghost left: seq<bool>, ghost out: seq<Byte>,
                                 ghost start: seq<bool>)
      returns (ghost blk: seq<bool>)
      requires start == b.w.bits
      requires Shape() && b.w.Valid() && b.Recorded(bs) && Pending(bs, ts, left) && b.Counted(ts) && AllFit(ts, |out|)
      requires b.lz.totalBytes == TotalSize(ts) && b.w.end == BLOCK_ROOM && |b.w.bits| < 24 && dictPos <= lookaheadPos
      requires lookaheadPos - dictPos <= dictSize ==> InWindow(dictPos, Expand(out, ts)[|out|..])
      requires adler < 0x1_0000_0000
      modifies b.w`pos, b.w`buffer, b.w`bitsIn, b.w`bits, b.w.out
      modifies b.lit.count, b.lit.codes, b.lit.sizes, b.dist.codes, b.dist.sizes, b.cl.count, b.cl.codes, b.cl.sizes
      ensures b.w.Valid() && Flushed(start, blk, b.w.bits, mode, flags, adler, out, Expand(out, ts))
      ensures (!mode.NoFlush? ==> b.w.bitsIn == 0) && b.w.Complete()
      ensures Chosen(flags, lookaheadPos - dictPos <= dictSize, mode.Finish?, |start|, ts, Expand(out, ts)[|out|..],
          blk)
    {
      blk := WriteChunk(mode.Finish?, flags, lookaheadPos, dictPos, dictSize, bs, ts, left, out);
      FlushedIs(start, blk, mode, flags, adler, out, Expand(out, ts));
      TailKeeping(mode, flags, adler);
    }

    method TailKeeping(mode: FlushMode, flags: Flags, adler: nat)
      requires Shape() && b.w.Valid() && adler < 0x1_0000_0000
      requires b.w.Complete() && b.w.end == BLOCK_ROOM && Roomy(b.w.bits)
      modifies b.w`pos, b.w`buffer, b.w`bitsIn, b.w`bits, b.w.out
      ensures b.w.Valid() && b.w.bits == old(b.w.bits) + TailBits(mode, flags, adler, |old(b.w.bits)|)
      ensures (!mode.NoFlush? ==> b.w.bitsIn == 0) && b.w.Complete()
    {
      TailIsShort(mode, flags, adler, |b.w.bits|);
      PutTail(mode, flags, adler);
    }

    lemma RecordedSizes()
      requires b.lz.Valid()
      ensures AllStorable(b.lz.Tokens()) && Recordable(b.lz.Tokens()) && |b.lz.Tokens()| < 0xFFFF
    {
      b.lz.TokensTakeBytes(b.lz.Tokens());
    }

    /** Empties the output buffer and completes the recorded tokens. */
    method Prepare() returns (ghost bs: seq<Byte>, ghost left: seq<bool>)
      requires Shape() && b.w.Valid() && b.lz.Valid()
      modifies b.w, b.lz`codePos, b.lz.buf
      ensures b.w.Valid() && b.Recorded(bs) && Pending(bs, old(b.lz.Tokens()), left) && b.Counted(old(b.lz.Tokens()))
      ensures b.lz.totalBytes == TotalSize(old(b.lz.Tokens())) == old(b.lz.totalBytes)
      ensures b.w.end == BLOCK_ROOM && b.w.bits == old(ToBits(b.w.buffer, b.w.bitsIn)) && |b.w.bits| < 8
    {
      ghost var ts := b.lz.Tokens();
      RecordedSizes();
      left := b.lz.Finish();
      bs := b.lz.buf[..b.lz.codePos];
      b.w.Restart(BLOCK_ROOM);
    }

    /** Completes the recorded tokens and writes them as a block. */
    method WriteRecorded(mode: FlushMode, flags: Flags, lookaheadPos: nat, dictPos: nat, dictSize: nat, adler: nat,
                         ghost ts: seq<Token>, ghost out: seq<Byte>)
      returns (ghost blk: seq<bool>)
      requires Shape() && b.w.Valid() && b.lz.Valid() && ts == b.lz.Tokens() && AllFit(ts, |out|)
      requires dictPos <= lookaheadPos && adler < 0x1_0000_0000
      requires lookaheadPos - dictPos <= dictSize ==> InWindow(dictPos, Expand(out, ts)[|out|..])
      modifies b.w, b.w.out, b.lz`codePos, b.lz.buf
      modifies b.lit.count, b.lit.codes, b.lit.sizes, b.dist.codes, b.dist.sizes, b.cl.count, b.cl.codes, b.cl.sizes
      ensures b.w.Valid()
      ensures Flushed(old(ToBits(b.w.buffer, b.w.bitsIn)) + Leader(flags, blockIndex), blk, b.w.bits, mode, flags,
          adler, out, Expand(out, ts))
      ensures (!mode.NoFlush? ==> b.w.bitsIn == 0) && b.w.Complete()
      ensures Chosen(flags, lookaheadPos - dictPos <= dictSize, mode.Finish?,
                     |old(ToBits(b.w.buffer, b.w.bitsIn)) + Leader(flags, blockIndex)|, ts, Expand(out, ts)[|out|..],
                         blk)
    {
      ghost var bs, left;
      DictApart();
      bs, left := Prepare();
      blk := WriteBlock(mode, flags, lookaheadPos, dictPos, dictSize, adler, bs, ts, left, out);
    }

    /** Hands the full bytes to the output; the rest stays in the bit buffer. */
    method Deliver()
      requires Shape() && b.w.Valid() && b.w.Complete()
      modifies this`sink, this`blockIndex
      ensures BytesToBits(sink) + ToBits(b.w.buffer, b.w.bitsIn) == BytesToBits(old(sink)) + b.w.bits
      ensures blockIndex == old(blockIndex) + 1
    {
      blockIndex := blockIndex + 1;
      ghost var before, more := sink, b.w.out[..b.w.pos];
      sink := sink + b.w.out[..b.w.pos];
      b.w.CompleteOutput();
      BytesToBitsConcat(before, more);
      Regroup(BytesToBits(before), BytesToBits(more), ToBits(b.w.buffer, b.w.bitsIn));
    }

    /** Hands over the output and starts recording afresh. */
    method DeliverAndClear()
      requires Shape() && b.w.Valid() && b.w.Complete() && b.lz.Shape()
      modifies this`sink, this`blockIndex, b.lz, b.lit.count, b.dist.count
      ensures b.w.Valid() && b.lz.Empty()
      ensures BytesToBits(sink) + ToBits(b.w.buffer, b.w.bitsIn) == BytesToBits(old(sink)) + b.w.bits
      ensures blockIndex == old(blockIndex) + 1
    {
      Deliver();
      ClearTokens();
    }

    method ClearTokens()
      requires Shape() && b.w.Valid() && b.lz.Shape()
      modifies b.lz, b.lit.count, b.dist.count
      ensures b.w.Valid() && b.lz.Empty()
    {
      b.lz.Clear();
    }

    /** Writing and handing over. */
    method WriteAndDeliver(mode: FlushMode, flags: Flags, lookaheadPos: nat, dictPos: nat, dictSize: nat, adler: nat,
                       ghost ts: seq<Token>, ghost out: seq<Byte>,
                       ghost lead: seq<bool>, ghost index: nat, ghost sink0: seq<Byte>, ghost at: nat)
      returns (ghost blk: seq<bool>, ghost w: seq<bool>)
      requires at == |lead + Leader(flags, index)|
      requires lead == ToBits(b.w.buffer, b.w.bitsIn) && index == blockIndex && sink0 == sink
      requires Shape() && b.w.Valid() && b.lz.Valid() && ts == b.lz.Tokens() && AllFit(ts, |out|)
      requires dictPos <= lookaheadPos && adler < 0x1_0000_0000
      requires lookaheadPos - dictPos <= dictSize ==> InWindow(dictPos, Expand(out, ts)[|out|..])
      modifies this`sink, this`blockIndex, b.w, b.w.out, b.lz, b.lz.buf
      modifies b.lit.count, b.lit.codes, b.lit.sizes, b.dist.count, b.dist.codes, b.dist.sizes, b.cl.count,
          b.cl.codes, b.cl.sizes
      ensures b.w.Valid() && b.lz.Empty()
      ensures Flushed(lead + Leader(flags, index), blk, w, mode, flags, adler, out, Expand(out, ts))
      ensures BytesToBits(sink) + ToBits(b.w.buffer, b.w.bitsIn) == BytesToBits(sink0) + w
      ensures !mode.NoFlush? ==> b.w.bitsIn == 0
      ensures blockIndex == index + 1
      ensures Chosen(flags, lookaheadPos - dictPos <= dictSize, mode.Finish?, at, ts, Expand(out, ts)[|out|..], blk)
    {
      blk := WriteRecorded(mode, flags, lookaheadPos, dictPos, dictSize, adler, ts, out);
      w := b.w.bits;
      DeliverAndClear();
    }

    /** All of `tdefl_flush_block` but the account of what the output means. */
    method FlushOutput(mode: FlushMode, flags: Flags, lookaheadPos: nat, dictPos: nat, dictSize: nat, adler: nat,
                       ghost ts: seq<Token>, ghost out: seq<Byte>,
                       ghost lead: seq<bool>, ghost index: nat, ghost sink0: seq<Byte>, ghost at: nat)
      returns (ghost blk: seq<bool>, ghost w: seq<bool>)
      requires at == |lead + Leader(flags, index)|
      requires lead == ToBits(b.w.buffer, b.w.bitsIn) && index == blockIndex && sink0 == sink
      requires b.PartsAre() && this as object !in b.parts
      requires Shape() && b.w.Valid() && b.lz.Valid() && ts == b.lz.Tokens() && AllFit(ts, |out|)
      requires dictPos <= lookaheadPos && adler < 0x1_0000_0000
      requires lookaheadPos - dictPos <= dictSize ==> InWindow(dictPos, Expand(out, ts)[|out|..])
      modifies this`sink, this`blockIndex, b.parts
      ensures b.w.Valid() && b.lz.Empty()
      ensures Flushed(lead + Leader(flags, index), blk, w, mode, flags, adler, out, Expand(out, ts))
      ensures BytesToBits(sink) + ToBits(b.w.buffer, b.w.bitsIn) == BytesToBits(sink0) + w
      ensures !mode.NoFlush? ==> b.w.bitsIn == 0
      ensures blockIndex == index + 1
      ensures Chosen(flags, lookaheadPos - dictPos <= dictSize, mode.Finish?, at, ts, Expand(out, ts)[|out|..], blk)
    {
      AllParts();
      blk, w := WriteAndDeliver(mode, flags, lookaheadPos, dictPos, dictSize, adler, ts, out, lead, index, sink0, at);
    }

    lemma AllParts()
      requires b.PartsAre()
      ensures b.w as object in b.parts && b.w.out as object in b.parts && b.lz as object in b.parts
          && b.lz.buf as object in b.parts
      ensures b.lit.count as object in b.parts && b.lit.codes as object in b.parts && b.lit.sizes as object in b.parts
      ensures b.dist.count as object in b.parts && b.dist.codes as object in b.parts
          && b.dist.sizes as object in b.parts
      ensures b.cl.count as object in b.parts && b.cl.codes as object in b.parts && b.cl.sizes as object in b.parts
    {
      assert Shown(b, 0);
    }

    /** `tdefl_flush_block` */
    method FlushBlock(mode: FlushMode, flags: Flags, lookaheadPos: nat, dictPos: nat, dictSize: nat, adler: nat,
                      ghost ts: seq<Token>)
      returns (dictPos': nat, ghost blk: seq<bool>, ghost at: nat)
      requires b.PartsAre() && this as object !in b.parts && StreamOk(flags) && b.lz.Valid() && ts == b.lz.Tokens()
          && AllFit(ts, |data|)
      requires dictPos <= lookaheadPos && adler < 0x1_0000_0000
      requires lookaheadPos - dictPos <= dictSize ==> InWindow(dictPos, Expand(data, ts)[|data|..])
      modifies this, b.parts
      ensures b.lz.Empty() && dictPos' == dictPos + old(b.lz.totalBytes)
      ensures After(mode, flags, adler, Expand(old(data), ts))
      ensures !mode.NoFlush? ==> b.w.bitsIn == 0
      ensures bits == BitsAfter(old(bits), blk, mode) && at == old(b.w.bitsIn) + |Leader(flags, old(blockIndex))|
      ensures Chosen(flags, lookaheadPos - dictPos <= dictSize, mode.Finish?, at, ts,
                     Expand(old(data), ts)[|old(data)|..], blk)
    {
      dictPos' := dictPos + b.lz.totalBytes;
      OpenStream(flags);
      at := b.w.bitsIn + |Leader(flags, blockIndex)|;
      blk := FlushOpened(mode, flags, lookaheadPos, dictPos, dictSize, adler, ts, data, bits, at);
    }

    method FlushOpened(mode: FlushMode, flags: Flags, lookaheadPos: nat, dictPos: nat, dictSize: nat, adler: nat,
                       ghost ts: seq<Token>, ghost out: seq<Byte>, ghost bits0: seq<bool>, ghost at: nat)
      returns (ghost blk: seq<bool>)
      requires bits0 == bits && at == b.w.bitsIn + |Leader(flags, blockIndex)|
      requires Shape() && b.w.Valid() && out == data && b.PartsAre() && this as object !in b.parts
      requires blockIndex == 0 ==> ToBits(b.w.buffer, b.w.bitsIn) == [] && sink == [] && bits == []
      requires Reads(bits, out) && SinkHolds(sink, ToBits(b.w.buffer, b.w.bitsIn), StreamHeader(flags, blockIndex),
          bits)
      requires b.lz.Valid() && ts == b.lz.Tokens() && AllFit(ts, |out|)
      requires dictPos <= lookaheadPos && adler < 0x1_0000_0000
      requires lookaheadPos - dictPos <= dictSize ==> InWindow(dictPos, Expand(out, ts)[|out|..])
      modifies this, b.parts
      ensures b.lz.Empty() && After(mode, flags, adler, Expand(out, ts))
      ensures !mode.NoFlush? ==> b.w.bitsIn == 0
      ensures bits == BitsAfter(bits0, blk, mode)
      ensures Chosen(flags, lookaheadPos - dictPos <= dictSize, mode.Finish?, at, ts, Expand(out, ts)[|out|..], blk)
    {
      ghost var lead, sink0, index := ToBits(b.w.buffer, b.w.bitsIn), sink, blockIndex;
      ghost var w;
      assert |lead + Leader(flags, index)| == at;
      blk, w := FlushOutput(mode, flags, lookaheadPos, dictPos, dictSize, adler, ts, out, lead, index, sink0, at);
      Account(mode, flags, adler, blk, w, sink0, lead, index, out, Expand(out, ts));
    }

    /** How things stand after a flush. */
    ghost predicate After(mode: FlushMode, flags: Flags, adler: nat, out: seq<Byte>)
      requires adler < 0x1_0000_0000
      reads this, b.w, b.w.out
    {
      (data == out && blockIndex > 0 && if mode.Finish? then Finished(flags, adler) else StreamOk(flags)) == true
    }

    lemma OpenStream(flags: Flags)
      requires StreamOk(flags)
      ensures Shape() && b.w.Valid()
      ensures blockIndex == 0 ==> ToBits(b.w.buffer, b.w.bitsIn) == [] && sink == [] && bits == []
      ensures Reads(bits, data) && SinkHolds(sink, ToBits(b.w.buffer, b.w.bitsIn), StreamHeader(flags, blockIndex),
          bits)
    {
    }

    /** Notes the block just written. */
    ghost method Account(mode: FlushMode, flags: Flags, adler: nat, blk: seq<bool>, w: seq<bool>,
                         sink0: seq<Byte>, lead: seq<bool>, index: nat, out: seq<Byte>, data': seq<Byte>)
      requires Shape() && b.w.Valid() && b.lz.Empty() && adler < 0x1_0000_0000 && blockIndex == index + 1
      requires Reads(bits, out) && SinkHolds(sink0, lead, StreamHeader(flags, index), bits)
      requires index == 0 ==> sink0 == [] && lead == [] && bits == []
      requires Flushed(lead + Leader(flags, index), blk, w, mode, flags, adler, out, data')
      requires BytesToBits(sink) + ToBits(b.w.buffer, b.w.bitsIn) == BytesToBits(sink0) + w
      requires !mode.NoFlush? ==> b.w.bitsIn == 0
      modifies this`bits, this`data
      ensures b.lz.Empty() && After(mode, flags, adler, data')
      ensures b.w.bitsIn == old(b.w.bitsIn) && bits == BitsAfter(old(bits), blk, mode)
    {
      SinkGrows(sink0, lead, index, bits, out, blk, w, mode, flags, adler, data', sink, ToBits(b.w.buffer, b.w.bitsIn));
      SetStream(BitsAfter(bits, blk, mode), data');
      Conclude(mode, flags, adler, BitsAfter(old(bits), blk, mode), data');
    }

    ghost method SetStream(bits': seq<bool>, data': seq<Byte>)
      requires b.lz.Empty() && b.w.Valid()
      modifies this`bits, this`data
      ensures bits == bits' && data == data' && b.lz.Empty() && b.w.Valid()
      ensures sink == old(sink) && blockIndex == old(blockIndex)
      ensures b.w.buffer == old(b.w.buffer) && b.w.bitsIn == old(b.w.bitsIn)
    {
      bits, data := bits', data';
    }

    lemma Conclude(mode: FlushMode, flags: Flags, adler: nat, bits': seq<bool>, data': seq<Byte>)
      requires Shape() && b.w.Valid() && adler < 0x1_0000_0000 && blockIndex > 0 && bits == bits' && data == data'
      requires !mode.Finish? ==>
                 Reads(bits', data') && SinkHolds(sink, ToBits(b.w.buffer, b.w.bitsIn),
                     StreamHeader(flags, blockIndex), bits')
      requires mode.Finish? ==>
                 Ends(bits', data') && SinkHolds(sink, [], StreamHeader(flags, 1),
                     bits' + (Padding(|bits'|) + BytesToBits(Trailer(flags, adler))))
      ensures After(mode, flags, adler, data')
    {
    }

    /** The output is a complete stream for `data`: `bits` are its blocks, the last one marked. */
    ghost predicate Finished(flags: Flags, adler: nat)
      requires adler < 0x1_0000_0000
      reads this
    {
      (&& Ends(bits, data)
       && SinkHolds(sink, [], StreamHeader(flags, 1),
           bits + (Padding(|bits|) + BytesToBits(Trailer(flags, adler))))) == true
    }
  }

  // ---- Bits and bytes of the stream

  /** No byte is lost even when a stream trailer follows. */
  ghost predicate Roomy(bits: seq<bool>) {
    |bits| + 80 < 8 * BLOCK_ROOM
  }

  /** Why a block is stored, or is not. */
  ghost predicate ChosenBy(flags: Flags, inWindow: bool, at: nat, ts: seq<Token>, f: Form, stored: bool) {
    (if flags.forceRaw && inWindow then stored
     else FormFor(flags, ts, f) && (stored <==> inWindow && Expanded(at + 1, |FormBits(f, ts)|, TotalSize(ts)))) == true
  }

  lemma IsChosen(flags: Flags, inWindow: bool, final: bool, at: nat, ts: seq<Token>, data: seq<Byte>, blk: seq<bool>,
                 f: Form, stored: bool)
    requires ChosenBy(flags, inWindow, at, ts, f, stored)
    requires if stored then IsStored(final, at, data, blk) else blk == [final] + FormBits(f, ts)
    ensures Chosen(flags, inWindow, final, at, ts, data, blk)
  {
    if !(flags.forceRaw && inWindow) {
      assert ChosenOver(f, flags, inWindow, final, at, ts, data, blk);
    }
  }

  lemma CompressedDone(f: Form, final: bool, start: seq<bool>, ts: seq<Token>, out: seq<Byte>) returns (blk: seq<bool>)
    requires Compact(f, ts) && AllFit(ts, |out|) && |start| < 24
    ensures blk == [final] + FormBits(f, ts)
    ensures start + [final] + FormBits(f, ts) == start + blk && BlockReads(|start|, blk, final, out, Expand(out, ts))
    ensures Roomy(start + blk)
  {
    Regroup(start, [final], FormBits(f, ts));
    blk := [final] + FormBits(f, ts);
    CompressedReads(|start|, f, final, ts, out);
  }

  lemma StoredIsRoomy(final: bool, start: seq<bool>, data: seq<Byte>)
    requires |data| < 0x1_0000 && |start| < 24
    ensures Roomy(start + StoredBits(final, |start|, data))
  {
  }

  ghost function Leader(flags: Flags, blockIndex: nat): (s: seq<bool>)
    ensures |s| == 0 || |s| == 16
  {
    if flags.zlibHeader && blockIndex == 0 then BytesToBits(ZLIB_HEADER) else []
  }

  /** What precedes the blocks in the output. */
  ghost function StreamHeader(flags: Flags, blockIndex: nat): (s: seq<bool>)
    ensures |s| == 0 || |s| == 16
  {
    if flags.zlibHeader && blockIndex > 0 then BytesToBits(ZLIB_HEADER) else []
  }

  ghost function TailBits(mode: FlushMode, flags: Flags, adler: nat, at: nat): seq<bool>
    requires adler < 0x1_0000_0000
  {
    match mode
    case NoFlush => []
    case Finish => Padding(at) + BytesToBits(Trailer(flags, adler))
    case _ => StoredBits(false, at, [])
  }

  lemma TailIsShort(mode: FlushMode, flags: Flags, adler: nat, at: nat)
    requires adler < 0x1_0000_0000
    ensures |TailBits(mode, flags, adler, at)| < 80
  {
  }

  /** The bits of one flush: a block and what belongs behind it. */
  ghost predicate Flushed(start: seq<bool>, blk: seq<bool>, w: seq<bool>, mode: FlushMode, flags: Flags, adler: nat,
                          out: seq<Byte>, out': seq<Byte>)
    requires adler < 0x1_0000_0000
  {
    (&& BlockReads(|start|, blk, mode.Finish?, out, out')
     && w == start + blk + TailBits(mode, flags, adler, |start + blk|)) == true
  }

  lemma FlushedIs(start: seq<bool>, blk: seq<bool>, mode: FlushMode, flags: Flags, adler: nat, out: seq<Byte>,
                  out': seq<Byte>)
    requires BlockReads(|start|, blk, mode.Finish?, out, out') && adler < 0x1_0000_0000
    ensures Flushed(start, blk, start + blk + TailBits(mode, flags, adler, |start + blk|), mode, flags, adler, out,
        out')
  {
  }

  /** Bytes and pending bits together are the stream header and the blocks. */
  ghost predicate SinkHolds(sink: seq<Byte>, pend: seq<bool>, header: seq<bool>, bits: seq<bool>) {
    BytesToBits(sink) + pend == header + bits
  }

  /** The blocks' bits once a flush is done. */
  ghost function BitsAfter(bits: seq<bool>, blk: seq<bool>, mode: FlushMode): seq<bool> {
    var s := bits + blk;
    if mode.NoFlush? || mode.Finish? then s else s + StoredBits(false, |s|, [])
  }

  /** The bits end with an empty stored block. */
  ghost predicate Marked(bits: seq<bool>) {
    exists s :: MarkedBehind(bits, s)
  }

  ghost predicate MarkedBehind(bits: seq<bool>, s: seq<bool>) {
    (bits == s + StoredBits(false, |s|, [])) == true
  }

  lemma AfterIsMarked(bits: seq<bool>, blk: seq<bool>, mode: FlushMode)
    requires mode.SyncFlush? || mode.FullFlush?
    ensures Marked(BitsAfter(bits, blk, mode))
  {
    assert MarkedBehind(BitsAfter(bits, blk, mode), bits + blk);
  }

  lemma PhaseOf(a: nat, b: nat, x: nat, y: nat)
    requires 8 * x + a == 8 * y + b
    ensures a % 8 == b % 8
  {
  }

  lemma SinkPhase(sink: seq<Byte>, pend: seq<bool>, header: seq<bool>, bits: seq<bool>)
    requires SinkHolds(sink, pend, header, bits) && (|header| == 0 || |header| == 16)
    ensures |pend| % 8 == |bits| % 8
  {
    assert |BytesToBits(sink) + pend| == |header + bits|;
    PhaseOf(|pend|, |bits|, |sink|, if |header| == 16 then 2 else 0);
  }

  lemma SinkAppend(sink: seq<Byte>, pend: seq<bool>, header: seq<bool>, bits: seq<bool>, more: seq<bool>)
    requires SinkHolds(sink, pend, header, bits)
    ensures SinkHolds(sink, pend + more, header, bits + more)
  {
    Regroup(BytesToBits(sink), pend, more);
    Regroup(header, bits, more);
  }

  /** The first block brings the stream header with it. */
  lemma SinkStarts(sink: seq<Byte>, pend: seq<bool>, leader: seq<bool>, header: seq<bool>, header': seq<bool>,
                   bits: seq<bool>)
    requires SinkHolds(sink, pend, header, bits)
    requires (leader == [] && header' == header)
        || (header == [] && header' == leader && sink == [] && pend == [] && bits == [])
    ensures SinkHolds(sink, pend + leader, header', bits)
  {
    if leader == [] {
      assert pend + leader == pend;
    } else {
      assert BytesToBits(sink) + (pend + leader) == header' + bits;
    }
  }

  lemma SamePadding(at: nat, at': nat)
    requires at % 8 == at' % 8
    ensures Padding(at) == Padding(at')
  {
  }

  lemma SameStored(at: nat, at': nat)
    requires at % 8 == at' % 8
    ensures StoredBits(false, at, []) == StoredBits(false, at', [])
  {
    SamePhaseSum(at, at', 3);
    SamePadding(at + 3, at' + 3);
  }

  /** Where the blocks' bits stand behind one more block. */
  lemma BlockJoins(sink: seq<Byte>, start: seq<bool>, header: seq<bool>, bits: seq<bool>, blk: seq<bool>,
                   final: bool, data: seq<Byte>, data': seq<Byte>)
    requires SinkHolds(sink, start, header, bits) && (|header| == 0 || |header| == 16)
    requires Reads(bits, data) && BlockReads(|start|, blk, final, data, data')
    ensures SinkHolds(sink, start + blk, header, bits + blk) && |start + blk| % 8 == |bits + blk| % 8
    ensures if final then Ends(bits + blk, data') else Reads(bits + blk, data')
  {
    SinkPhase(sink, start, header, bits);
    SamePhase(|start|, |bits|, blk, final, data, data');
    SinkAppend(sink, start, header, bits, blk);
    SinkPhase(sink, start + blk, header, bits + blk);
    if final {
      LastBlock(bits, blk, data, data');
    } else {
      OneMoreBlock(bits, blk, data, data');
    }
  }

  /** What a flush makes of an output that was complete before. */
  lemma SinkGrows(sink: seq<Byte>, lead: seq<bool>, index: nat, bits: seq<bool>, data: seq<Byte>, blk: seq<bool>,
                  w: seq<bool>,
                  mode: FlushMode, flags: Flags, adler: nat, data': seq<Byte>, sink': seq<Byte>, pend: seq<bool>)
    requires adler < 0x1_0000_0000 && Reads(bits, data) && SinkHolds(sink, lead, StreamHeader(flags, index), bits)
    requires index == 0 ==> sink == [] && lead == [] && bits == []
    requires Flushed(lead + Leader(flags, index), blk, w, mode, flags, adler, data, data')
    requires BytesToBits(sink') + pend == BytesToBits(sink) + w && (!mode.NoFlush? ==> pend == [])
    ensures !mode.Finish? ==> Reads(BitsAfter(bits, blk, mode), data')
    ensures !mode.Finish? ==> SinkHolds(sink', pend, StreamHeader(flags, index + 1), BitsAfter(bits, blk, mode))
    ensures mode.Finish? ==> Ends(bits + blk, data')
    ensures mode.Finish? ==>
      SinkHolds(sink', [], StreamHeader(flags, 1),
          bits + blk + (Padding(|bits + blk|) + BytesToBits(Trailer(flags, adler))))
  {
    var header, start, s := StreamHeader(flags, index + 1), lead + Leader(flags, index), bits + blk;
    SinkStarts(sink, lead, Leader(flags, index), StreamHeader(flags, index), header, bits);
    BlockJoins(sink, start, header, bits, blk, mode.Finish?, data, data');
    SamePadding(|start + blk|, |s|);
    SameStored(|start + blk|, |s|);
    SinkAppend(sink, start + blk, header, s, TailBits(mode, flags, adler, |start + blk|));
    match mode
    case NoFlush =>
      assert s + [] == s;
    case Finish =>
    case _ =>
      StoredReads(|s|, false, [], data');
      OneMoreBlock(s, StoredBits(false, |s|, []), data', data' + []);
      assert data' + [] == data';
  }

  lemma EmptyStored(start: seq<bool>)
    ensures start + ([false] + ToBits(0, 2)) + Padding(|start| + 3) + LengthHead(0) ==
        start + StoredBits(false, |start|, [])
  {
    var a, p, h := [false] + ToBits(0, 2), Padding(|start| + 3), LengthHead(0);
    assert StoredBits(false, |start|, []) == a + p + h + [];
    StoredParts(start, a, p, h, []);
  }

  const ZLIB_HEADER: seq<Byte> := [0x78, 0x01]

  lemma HeaderBytes()
    ensures BytesToBits(ZLIB_HEADER) == ToBits(0x78, 8) + ToBits(0x01, 8)
  {
    BytesToBitsSnoc([0x78], 0x01);
    BytesToBitsSnoc([], 0x78);
    assert [0x78] + [0x01] == ZLIB_HEADER && [] + [0x78] == [0x78];
  }

  lemma ZeroBits()
    ensures ToBits(0, 3) == [false] + ToBits(0, 2)
  {
  }

  function BigEndian(a: nat): (s: seq<Byte>)
    requires a < 0x1_0000_0000
    ensures |s| == 4
  {
    [a / 0x100_0000, a / 0x1_0000 % 256, a / 0x100 % 256, a % 256]
  }

  /** Shifting a 32-bit value left brings the next byte to the top. */
  lemma NextByte(a: nat)
    requires a < 0x1_0000_0000
    ensures a / 0x100_0000 % 256 == BigEndian(a)[0]
    ensures BigEndian(a * 256 % 0x1_0000_0000)[..3] == BigEndian(a)[1..]
  {
    var x, r := a / 0x100_0000, a % 0x100_0000;
    assert a == 0x100_0000 * x + r;
    DropTop(x, r);
    LowBytes(x, r);
  }

  lemma DropTop(x: nat, r: nat)
    requires x < 256 && r < 0x100_0000
    ensures (0x100_0000 * x + r) * 256 % 0x1_0000_0000 == 256 * r
  {
    DivModUnique((0x100_0000 * x + r) * 256, 0x1_0000_0000, x, 256 * r);
  }

  lemma LowBytes(x: nat, r: nat)
    requires x < 256 && r < 0x100_0000
    ensures var a := 0x100_0000 * x + r;
            && a / 0x1_0000 % 256 == 256 * r / 0x100_0000
            && a / 0x100 % 256 == 256 * r / 0x1_0000 % 256
            && a % 256 == 256 * r / 0x100 % 256
  {
    LowByte2(x, r);
    LowByte1(x, r);
    LowByte0(x, r);
  }

  lemma LowByte2(x: nat, r: nat)
    requires x < 256 && r < 0x100_0000
    ensures (0x100_0000 * x + r) / 0x1_0000 % 256 == 256 * r / 0x100_0000
  {
    var q, s := r / 0x1_0000, r % 0x1_0000;
    DivModUnique(0x100_0000 * x + r, 0x1_0000, 256 * x + q, s);
    DivModUnique(256 * x + q, 256, x, q);
    DivModUnique(256 * r, 0x100_0000, q, 256 * s);
  }

  lemma LowByte1(x: nat, r: nat)
    requires x < 256 && r < 0x100_0000
    ensures (0x100_0000 * x + r) / 0x100 % 256 == 256 * r / 0x1_0000 % 256
  {
    var q, s := r / 0x100, r % 0x100;
    DivModUnique(0x100_0000 * x + r, 0x100, 0x1_0000 * x + q, s);
    DivModUnique(256 * r, 0x1_0000, q, 256 * s);
    DivModUnique(0x1_0000 * x + q, 256, 256 * x + q / 256, q % 256);
  }

  lemma LowByte0(x: nat, r: nat)
    requires x < 256 && r < 0x100_0000
    ensures (0x100_0000 * x + r) % 256 == 256 * r / 0x100 % 256
  {
    var q, s := r / 0x100, r % 0x100;
    DivModUnique(0x100_0000 * x + r, 256, 0x1_0000 * x + q, s);
  }

  function Trailer(flags: Flags, adler: nat): seq<Byte>
    requires adler < 0x1_0000_0000
  {
    if flags.zlibHeader then BigEndian(adler) else []
  }

  /** The bytes of the code buffer are the recorded tokens. */
  ghost predicate Pending(bs: seq<Byte>, ts: seq<Token>, left: seq<bool>) {
    (Segment(bs, [], ts, left) && Recordable(ts)) == true
  }

  /** A saved state of the bit writer. */
  ghost predicate SavedAt(pos: nat, buffer: nat, bitsIn: nat, saved: seq<bool>, end: nat) {
    (&& bitsIn == |saved| % 8 && buffer < Pow2(bitsIn) && pos == BitWriter.Min(|saved| / 8, end)
     && ToBits(buffer, bitsIn) == saved[8 * (|saved| / 8)..]) == true
  }

  lemma StoredParts(start: seq<bool>, a: seq<bool>, b: seq<bool>, c: seq<bool>, d: seq<bool>)
    ensures start + a + b + c + d == start + (a + b + c + d)
  {
  }
}
