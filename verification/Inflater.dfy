/**
 The decompressor (`tinfl_decompress`): a coroutine that can stop wherever input
 runs out or the output is full, and goes on from there in the next call.
 */
module Inflater {
  import opened Bits
  import opened Canonical
  import opened DecodeTable
  import opened Tokens
  import opened InflateSpec
  import opened InflateSteps
  import DecodeTableBuilder
  import BitReader
  import HuffDecode
  import OutBuffer
  import BlockBits

  /** Where the coroutine goes on: one name for each place it can stop at, or return to. */
  datatype Pc =
    | Head | RawHead | RawBits | RawOut | RawCopy
    | TableSizes | ClSizes | LenSyms | LenRepeat
    | Syms | LitOut | LenBits | DistSyms | DistBits | CopyStart | CopySlow
    | Finished

  /** Whether the coroutine can go on in this call. */
  datatype Signal = Go | NeedsInput | FullOutput | Over

  /** The size of `m_len_codes`, which a run of lengths must not leave. */
  const MAX_LEN_CODES := 457

  class Inflater {
    const r: BitReader.Reader
    const dec: HuffDecode.Decoder
    const o: OutBuffer.Buffer
    const t0: DecodeTableBuilder.Table
    const t1: DecodeTableBuilder.Table
    const t2: DecodeTableBuilder.Table
    var pc: Pc
    var final: bool
    var rawHeader: seq<nat>
    var tableSizes: seq<nat>
    var lenCodes: seq<nat>
    var counter: nat
    var dist: nat
    var numExtra: nat
    // The last call stopped while loading single bytes for a symbol.
    var filling: bool
    ghost var st: State
    ghost const goal: Outcome

    ghost predicate Outside(x: object, t: DecodeTableBuilder.Table) {
      x != t as object && x != t.codeSize as object && x != t.lookUp as object && x != t.tree as object
    }

    ghost predicate TableApart(t: DecodeTableBuilder.Table) {
      t.Valid() && Outside(this, t) && Outside(r, t) && Outside(o, t) && Outside(o.buf, t)
    }

    ghost predicate TablesApart(s: DecodeTableBuilder.Table, t: DecodeTableBuilder.Table) {
      && s != t && s.codeSize != t.codeSize && s.codeSize as object != t.lookUp as object
          && s.codeSize as object != t.tree as object
      && s.lookUp as object != t.codeSize as object && s.lookUp != t.lookUp && s.lookUp != t.tree
      && s.tree as object != t.codeSize as object && s.tree != t.lookUp && s.tree != t.tree
    }

    ghost predicate Apart() {
      (&& dec.r == r && TableApart(t0) && TableApart(t1) && TableApart(t2)
       && TablesApart(t0, t1) && TablesApart(t0, t2) && TablesApart(t1, t2)) == true
    }

    /** What is left to do leads to the goal. */
    ghost predicate Leading()
      reads this`st, r, o, o.buf
    {
      (r.Valid() && o.Valid() && LeadsTo(st, r.rest, o.hist, goal)) == true
    }

    /** The codes in use. */
    ghost predicate CodesReady(c: Codes)
      reads t0, t0.lookUp, t0.tree, t1, t1.lookUp, t1.tree
    {
      (HuffDecode.Ready(t0, c.lit) && HuffDecode.Ready(t1, c.dist)) == true
    }

    /** The counts of a dynamic block stay within the arrays they index. */
    predicate SmallSizes(sizes: seq<nat>) {
      (|sizes| > 0 ==> sizes[0] <= 288) && (|sizes| > 1 ==> sizes[1] <= 32)
          && (|sizes| > 2 ==> sizes[2] <= MAX_CODE_LENGTHS)
    }

    /** With its extra bits the distance will not be too large. */
    predicate SmallDistance(base: nat, extra: nat) {
      (extra <= 13 && base + Pow2(extra) <= MAX_DIST + 1) == true
    }

    /** The fields describe the reading position. */
    ghost predicate Agrees()
      reads this, r, t0, t0.lookUp, t0.tree, t1, t1.lookUp, t1.tree, t2, t2.codeSize, t2.lookUp, t2.tree
    {
      match pc
      case Head => st == AtHead
      case RawHead => st == AtRawHead(final, rawHeader) && |rawHeader| <= 4
      case RawBits => st == AtStored(final, counter)
      case RawOut => dist < 256 && counter >= 1 && st == AtStoredByte(final, counter - 1, dist)
      case RawCopy => st == AtStored(final, counter) && r.numBits == 0
      case TableSizes => st == AtTableSizes(final, tableSizes) && |tableSizes| <= 3 && SmallSizes(tableSizes)
      case ClSizes =>
        t2.codeSize.Length >= MAX_CODE_LENGTHS && st ==
            AtClSizes(final, tableSizes, counter, t2.codeSize[..MAX_CODE_LENGTHS]) && |tableSizes| == 3
            && SmallSizes(tableSizes)
      case LenSyms => st.AtSizes? && st == AtSizes(final, tableSizes, st.cl, lenCodes) && |tableSizes| == 3
          && HuffDecode.Ready(t2, st.cl) && SmallSizes(tableSizes)
        && (filling ==> |lenCodes| < tableSizes[0] + tableSizes[1]) && |lenCodes| <= MAX_LEN_CODES
      case LenRepeat =>
        && st.AtRepeat? && st == AtRepeat(final, tableSizes, st.cl, lenCodes, dist) && |tableSizes| == 3
        && SmallSizes(tableSizes) && |lenCodes| < tableSizes[0] + tableSizes[1] && HuffDecode.Ready(t2, st.cl)
            && 16 <= dist <= 18 && (dist == 16 ==> lenCodes != []) && numExtra == RepeatWidth(dist)
      case Syms => st.AtSymbols? && st.c.final == final && CodesReady(st.c)
      case LitOut => st.AtLiteral? && counter < 256 && st == AtLiteral(st.c, counter) && st.c.final == final
          && CodesReady(st.c)
      case LenBits =>
        st.AtLenBits? && st == AtLenBits(st.c, counter, numExtra) && st.c.final == final && CodesReady(st.c)
        && counter >= MIN_MATCH && numExtra <= 5
      case DistSyms => st.AtDist? && st == AtDist(st.c, counter) && st.c.final == final && CodesReady(st.c)
          && counter >= MIN_MATCH
      case DistBits =>
        st.AtDistBits? && st == AtDistBits(st.c, counter, dist, numExtra) && st.c.final == final && CodesReady(st.c)
        && counter >= MIN_MATCH && SmallDistance(dist, numExtra)
      case CopyStart =>
        st.AtCopy? && counter >= MIN_MATCH && st == AtCopy(st.c, counter, dist) && st.c.final == final
            && CodesReady(st.c) && dist <= MAX_DIST
      case CopySlow =>
        st.AtCopy? && st == AtCopy(st.c, counter, dist) && st.c.final == final && CodesReady(st.c) && dist <= MAX_DIST
      case Finished => st == AtEnd
    }

    ghost predicate Ok()
      reads this, r, o, o.buf, t0, t0.lookUp, t0.tree, t1, t1.lookUp, t1.tree, t2, t2.codeSize, t2.lookUp, t2.tree
    {
      (&& Apart() && Leading() && Agrees()
       && (filling ==> r.numBits < MAX_CODE_SIZE && (pc.Syms? || pc.DistSyms? || pc.LenSyms?))) == true
    }

    constructor (r: BitReader.Reader, o: OutBuffer.Buffer, ghost goal: Outcome)
      ensures Apart() && AtStart() && this.r == r && this.o == o && this.goal == goal
      ensures fresh(t0) && fresh(t1) && fresh(t2) && fresh(dec)
      ensures fresh(t0.codeSize) && fresh(t0.lookUp) && fresh(t0.tree) && fresh(t1.codeSize) && fresh(t1.lookUp)
          && fresh(t1.tree)
      ensures fresh(t2.codeSize) && fresh(t2.lookUp) && fresh(t2.tree)
    {
      this.r, this.o, this.goal := r, o, goal;
      dec := new HuffDecode.Decoder(r);
      t0 := new DecodeTableBuilder.Table();
      t1 := new DecodeTableBuilder.Table();
      t2 := new DecodeTableBuilder.Table();
      pc, final, rawHeader, tableSizes, lenCodes := Head, false, [], [], [];
      counter, dist, numExtra, filling, st := 0, 0, 0, false, AtHead;
    }

    /** Nothing has been read yet. */
    ghost predicate AtStart()
      reads this
    {
      (pc.Head? && st == AtHead && !filling) == true
    }

    lemma Started()
      requires Apart() && AtStart() && r.Valid() && o.Valid() && LeadsTo(AtHead, r.rest, o.hist, goal)
      ensures Ok()
    {
    }

    // ---- What every step keeps, and how it gets on

    /** A byte is waiting for room. */
    predicate Writing()
      reads this
    {
      pc.RawOut? || pc.LitOut? || ((pc.RawCopy? || pc.CopySlow?) && counter > 0)
    }

    /** Positions that are reached without reading or writing come in this order. */
    function Rank(pc: Pc): nat {
      match pc
      case RawHead => 9 case RawBits => 8 case RawCopy => 7
      case TableSizes => 9 case ClSizes => 8 case LenSyms => 7
      case LenBits => 6 case DistSyms => 5
      case DistBits => 6 case CopyStart => 5 case CopySlow => 4
      case Syms => 3 case Head => 1
      case _ => 0
    }

    /** A step reads, or else writes, or else goes down in rank. */
    ghost predicate Advanced(bits0: nat, room0: nat, rank0: nat)
      reads this, r, o
      requires r.inPos <= |r.inp| && o.pos <= o.end
    {
      |r.rest| < bits0
      || (|r.rest| == bits0 && (o.end - o.pos < room0 || (o.end - o.pos == room0 && Rank(pc) < rank0)))
    }

    /** The outcome of one step from `hist0` output with `bits0` bits to read and `room0` bytes of room. */
    ghost predicate After(sig: Signal, hist0: seq<Byte>, bits0: nat, room0: nat, rank0: nat)
      reads this, r, o
      requires r.inPos <= |r.inp| && o.pos <= o.end
    {
      (&& hist0 <= o.hist && |o.hist| + (o.end - o.pos) == |hist0| + room0
       && (sig.Go? ==> Advanced(bits0, room0, rank0))
       && (sig.NeedsInput? ==> r.inPos == |r.inp| && r.later != [] && Waits(st, r.rest, r.numBits))
       && (sig.FullOutput? ==> o.pos == o.end && Writing())
       && (sig.Over? ==> pc.Finished?)) == true
    }

    // ---- Stored blocks

    /** Reads one byte of a stored block's header. */
    method RawHeadStep() returns (sig: Signal)
      requires Apart() && Leading() && st == AtRawHead(final, rawHeader) && |rawHeader| < 4 && pc.RawHead? && !filling
      modifies this`st, this`rawHeader, r`bitBuf, r`numBits, r`inPos, r`rest
      ensures Ok() && After(sig, old(o.hist), old(|r.rest|), old(o.end - o.pos), 9)
    {
      InflateSteps.RawHeadStep(final, rawHeader, r.rest, o.hist, goal);
      var ok, v := r.GetBits(8);
      if !ok {
        r.AllLoaded();
        return NeedsInput;
      }
      rawHeader := rawHeader + [v];
      st := AtRawHead(final, rawHeader);
      return Go;
    }

    /** The length and its complement agree on a valid stream. */
    method RawHeadEnd() returns (sig: Signal)
      requires Apart() && Leading() && st == AtRawHead(final, rawHeader) && |rawHeader| == 4 && pc.RawHead? && !filling
      modifies this`st, this`pc, this`counter
      ensures Ok() && After(sig, old(o.hist), old(|r.rest|), old(o.end - o.pos), 9)
    {
      RawHeadDone(final, rawHeader, r.rest, o.hist, goal);
      counter := rawHeader[0] + 256 * rawHeader[1];
      assert counter == 0xFFFF - (rawHeader[2] + 256 * rawHeader[3]);
      pc, st := RawBits, AtStored(final, counter);
      return Go;
    }

    /** A block is over. */
    method EndOfBlock(ghost rank0: nat) returns (sig: Signal)
      requires Apart() && Leading() && st == (if final then AtEnd else AtHead) && !filling && rank0 > 1
      modifies this`pc
      ensures Ok() && After(sig, old(o.hist), old(|r.rest|), old(o.end - o.pos), rank0)
    {
      pc := if final then Finished else Head;
      return Go;
    }

    /** Bytes of a stored block that are already in the bit buffer. */
    method RawBitsStep() returns (sig: Signal)
      requires Apart() && Leading() && st == AtStored(final, counter) && pc.RawBits? && !filling
      modifies this`st, this`pc, this`dist, r`bitBuf, r`numBits, r`inPos, r`rest
      ensures Ok() && After(sig, old(o.hist), old(|r.rest|), old(o.end - o.pos), 8)
    {
      if counter == 0 {
        StoredStep(final, counter, r.rest, o.hist, goal);
        st := if final then AtEnd else AtHead;
        sig := EndOfBlock(8);
      } else if r.numBits > 0 {
        sig := RawBitsRead();
      } else {
        pc := RawCopy;
        sig := Go;
      }
    }

    method RawBitsRead() returns (sig: Signal)
      requires Apart() && Leading() && st == AtStored(final, counter) && counter > 0 && pc.RawBits? && !filling
      modifies this`st, this`pc, this`dist, r`bitBuf, r`numBits, r`inPos, r`rest
      ensures Ok() && After(sig, old(o.hist), old(|r.rest|), old(o.end - o.pos), 8)
    {
      StoredStep(final, counter, r.rest, o.hist, goal);
      var ok, v := r.GetBits(8);
      if !ok {
        r.AllLoaded();
        return NeedsInput;
      }
      dist := v;
      pc, st := RawOut, AtStoredByte(final, counter - 1, dist);
      return Go;
    }

    /** Writes one byte, which leads to `next`. */
    method Emit(b: Byte, ghost next: State)
      requires Apart() && r.Valid() && o.Valid() && o.pos < o.end && LeadsTo(next, r.rest, o.hist + [b], goal)
      modifies this`st, o`pos, o`hist, o.buf
      ensures Leading() && st == next && o.hist == old(o.hist) + [b] && o.pos == old(o.pos) + 1 && r.rest == old(r.rest)
    {
      o.Put(b);
      st := next;
    }

    method RawOutStep() returns (sig: Signal)
      requires Apart() && Leading() && dist < 256 && counter >= 1 && st == AtStoredByte(final, counter - 1, dist)
          && pc.RawOut? && !filling
      modifies this`st, this`pc, this`counter, o`pos, o`hist, o.buf
      ensures Ok() && After(sig, old(o.hist), old(|r.rest|), old(o.end - o.pos), 0)
    {
      if o.pos >= o.end {
        return FullOutput;
      }
      StoredByteStep(final, counter - 1, dist, r.rest, o.hist, goal);
      Emit(dist, AtStored(final, counter - 1));
      counter := counter - 1;
      pc := RawBits;
      return Go;
    }

    /** One byte from the input to the output. */
    method CopyByteIn()
      requires Apart() && Leading() && st == AtStored(final, counter) && counter > 0
      requires r.numBits == 0 && r.inPos < |r.inp| && o.pos < o.end
      modifies this`st, this`counter, r`inPos, r`rest, o`pos, o`hist, o.buf
      ensures Leading() && st == AtStored(final, counter) && counter == old(counter) - 1
      ensures r.inPos == old(r.inPos) + 1 && o.pos == old(o.pos) + 1 && |r.rest| < old(|r.rest|)
      ensures old(o.hist) <= o.hist && |o.hist| == |old(o.hist)| + 1
    {
      StoredStep(final, counter, r.rest, o.hist, goal);
      var c := r.ReadByte();
      StoredByteStep(final, counter - 1, c, r.rest, o.hist, goal);
      o.Put(c);
      counter := counter - 1;
      st := AtStored(final, counter);
    }

    method CopyIn(n: nat)
      requires Apart() && Leading() && st == AtStored(final, counter) && 1 <= n <= counter
      requires r.numBits == 0 && r.inPos + n <= |r.inp| && o.pos + n <= o.end
      modifies this`st, this`counter, r`inPos, r`rest, o`pos, o`hist, o.buf
      ensures Leading() && st == AtStored(final, counter)
      ensures |r.rest| < old(|r.rest|) && old(o.hist) <= o.hist
          && |o.hist| + (o.end - o.pos) == |old(o.hist)| + old(o.end - o.pos)
    {
      ghost var hist0, bits0, p, q, c := o.hist, |r.rest|, o.pos, r.inPos, counter;
      var i: nat := 0;
      while i < n
        invariant i <= n && Leading() && st == AtStored(final, counter) && counter == c - i
        invariant r.inPos == q + i && o.pos == p + i && hist0 <= o.hist && |o.hist| == |hist0| + i
        invariant if i == 0 then |r.rest| == bits0 else |r.rest| < bits0
      {
        CopyByteIn();
        i := i + 1;
      }
    }

    /** The rest of a stored block goes straight from the input to the output. */
    method RawCopyStep() returns (sig: Signal)
      requires Apart() && Leading() && st == AtStored(final, counter) && pc.RawCopy? && r.numBits == 0 && !filling
      modifies this`st, this`pc, this`counter, r`inPos, r`rest, o`pos, o`hist, o.buf
      ensures Ok() && After(sig, old(o.hist), old(|r.rest|), old(o.end - o.pos), 7)
    {
      StoredStep(final, counter, r.rest, o.hist, goal);
      if counter == 0 {
        st := if final then AtEnd else AtHead;
        sig := EndOfBlock(7);
      } else if o.pos >= o.end {
        sig := FullOutput;
      } else if r.inPos >= |r.inp| {
        r.AllLoaded();
        sig := NeedsInput;
      } else {
        sig := CopyAvailable();
      }
    }

    /** Copies as much as there is input for, room for, and left of the block. */
    method CopyAvailable() returns (sig: Signal)
      requires Apart() && Leading() && st == AtStored(final, counter) && pc.RawCopy? && r.numBits == 0 && !filling
      requires counter > 0 && o.pos < o.end && r.inPos < |r.inp|
      modifies this`st, this`counter, r`inPos, r`rest, o`pos, o`hist, o.buf
      ensures Ok() && After(sig, old(o.hist), old(|r.rest|), old(o.end - o.pos), 7)
    {
      var n := o.end - o.pos;
      if |r.inp| - r.inPos < n {
        n := |r.inp| - r.inPos;
      }
      if counter < n {
        n := counter;
      }
      CopyIn(n);
      sig := Go;
    }

    // ---- The start of a block

    lemma ThreeBits(bits: seq<bool>)
      requires |bits| >= 3
      ensures Val(bits, 3) % 2 == (if bits[0] then 1 else 0) && Val(bits, 3) / 2 == Val(bits[1..], 2)
    {
      assert bits[..3][1..] == bits[1..][..2];
    }

    /** The first three bits of a block. */
    method HeadStep() returns (sig: Signal)
      requires Apart() && Leading() && st == AtHead && pc.Head? && !filling
      modifies this`st, this`pc, this`final, this`rawHeader, this`tableSizes, r`bitBuf, r`numBits, r`inPos, r`rest
      modifies t0, t0.codeSize, t0.lookUp, t0.tree, t1, t1.codeSize, t1.lookUp, t1.tree
      ensures Ok() && After(sig, old(o.hist), old(|r.rest|), old(o.end - o.pos), 1)
    {
      ghost var bits := r.rest;
      InflateSteps.HeadStep(bits, o.hist, goal);
      var ok, v := r.GetBits(3);
      if !ok {
        r.AllLoaded();
        return NeedsInput;
      }
      ThreeBits(bits);
      final := v % 2 == 1;
      sig := BlockOfKind(v / 2, bits);
    }

    method BlockOfKind(kind: nat, ghost bits: seq<bool>) returns (sig: Signal)
      requires Apart() && r.Valid() && o.Valid() && pc.Head? && !filling && |bits| >= 3 && r.rest == bits[3..]
          && kind < 3
      requires kind == 0 ==> LeadsTo(AtRawHead(final, []), bits[3..][|bits[3..]| % 8..], o.hist, goal)
      requires kind == 1 ==> LeadsTo(AtSymbols(FixedCodes(final)), bits[3..], o.hist, goal)
      requires kind == 2 ==> LeadsTo(AtTableSizes(final, []), bits[3..], o.hist, goal)
      modifies this`st, this`pc, this`rawHeader, this`tableSizes, r`bitBuf, r`numBits, r`rest
      modifies t0, t0.codeSize, t0.lookUp, t0.tree, t1, t1.codeSize, t1.lookUp, t1.tree
      ensures Ok() && After(sig, old(o.hist), |bits|, old(o.end - o.pos), 1)
    {
      if kind == 0 {
        sig := StoredBlock(bits);
      } else if kind == 1 {
        sig := FixedBlock(bits);
      } else {
        tableSizes := [];
        pc, st := TableSizes, AtTableSizes(final, []);
        sig := Go;
      }
    }

    method StoredBlock(ghost bits: seq<bool>) returns (sig: Signal)
      requires Apart() && r.Valid() && o.Valid() && !filling && |bits| >= 3 && r.rest == bits[3..]
      requires LeadsTo(AtRawHead(final, []), bits[3..][|bits[3..]| % 8..], o.hist, goal)
      modifies this`st, this`pc, this`rawHeader, r`bitBuf, r`numBits, r`rest
      ensures Ok() && After(sig, old(o.hist), |bits|, old(o.end - o.pos), 1)
    {
      r.RestStarts();
      r.Drop(r.numBits % 8);
      rawHeader := [];
      pc, st := RawHead, AtRawHead(final, []);
      sig := Go;
    }

    method FixedBlock(ghost bits: seq<bool>) returns (sig: Signal)
      requires Apart() && r.Valid() && o.Valid() && !filling && |bits| >= 3 && r.rest == bits[3..]
      requires LeadsTo(AtSymbols(FixedCodes(final)), bits[3..], o.hist, goal)
      modifies this`st, this`pc
      modifies t0, t0.codeSize, t0.lookUp, t0.tree, t1, t1.codeSize, t1.lookUp, t1.tree
      ensures Ok() && After(sig, old(o.hist), |bits|, old(o.end - o.pos), 1)
    {
      ghost var c := FixedCodes(final);
      FixedTables(c);
      sig := EnterSymbols(c, |bits|, 1);
    }

    /** Both tables are ready: compressed data follows. */
    method EnterSymbols(ghost c: Codes, ghost bits0: nat, ghost rank0: nat) returns (sig: Signal)
      requires Apart() && r.Valid() && o.Valid() && !filling && CodesReady(c) && c.final == final
      requires LeadsTo(AtSymbols(c), r.rest, o.hist, goal)
      requires |r.rest| < bits0 || (|r.rest| == bits0 && rank0 > 3)
      modifies this`st, this`pc
      ensures Ok() && After(sig, old(o.hist), bits0, old(o.end - o.pos), rank0)
    {
      pc, st := Syms, AtSymbols(c);
      sig := Go;
    }

    /** Builds a table whose lengths a valid stream has just given. */
    method BuildTable(t: DecodeTableBuilder.Table, n: nat, ghost lens: seq<nat>)
      requires t.Valid() && n == |lens| <= DecodeTable.MAX_SYMBOLS && t.codeSize[..n] == lens && Decodable(lens)
      modifies t, t.lookUp, t.tree
      ensures HuffDecode.Ready(t, lens)
    {
      var ok := t.Build(n);
      assert ok;
      assert Shown(lens, 0);
    }

    /** The fixed codes (`m_type` 1). */
    method FixedTables(ghost c: Codes)
      requires Apart() && FixedLengths(c.lit, c.dist)
      modifies t0, t0.codeSize, t0.lookUp, t0.tree, t1, t1.codeSize, t1.lookUp, t1.tree
      ensures CodesReady(c)
    {
      FillFixed(c);
      BlockBits.FixedLitFull(c.lit, c.dist);
      BlockBits.FixedDistFull(c.lit, c.dist);
      BuildBoth(288, 32, c);
    }

    method FillFixed(ghost c: Codes)
      requires Apart() && FixedLengths(c.lit, c.dist)
      modifies t0.codeSize, t1.codeSize
      ensures t0.codeSize[..288] == c.lit && t1.codeSize[..32] == c.dist
    {
      for i := 0 to 32
        invariant forall k :: 0 <= k < i ==> t1.codeSize[k] == 5
      {
        t1.codeSize[i] := 5;
      }
      for i := 0 to 288
        invariant forall k :: 0 <= k < i ==> t0.codeSize[k] == FixedSize(k)
        invariant forall k :: 0 <= k < 32 ==> t1.codeSize[k] == 5
      {
        t0.codeSize[i] := if i <= 143 then 8 else if i <= 255 then 9 else if i <= 279 then 7 else 8;
      }
    }

    /** Builds the distance table, then the literal/length table. */
    method BuildBoth(nLit: nat, nDist: nat, ghost c: Codes)
      requires Apart() && nLit == |c.lit| <= DecodeTable.MAX_SYMBOLS && nDist == |c.dist| <= DecodeTable.MAX_SYMBOLS
      requires t0.codeSize[..nLit] == c.lit && t1.codeSize[..nDist] == c.dist && Decodable(c.lit) && Decodable(c.dist)
      modifies t0, t0.lookUp, t0.tree, t1, t1.lookUp, t1.tree
      ensures CodesReady(c)
    {
      BuildTable(t1, nDist, c.dist);
      assert t0.codeSize[..nLit] == c.lit;
      BuildTable(t0, nLit, c.lit);
    }

    // ---- Dynamic codes

    /** The three counts of a dynamic block's header. */
    method TableSizesStep() returns (sig: Signal)
      requires Apart() && Leading() && st == AtTableSizes(final, tableSizes) && |tableSizes| < 3
          && SmallSizes(tableSizes) && pc.TableSizes? && !filling
      modifies this`st, this`tableSizes, r`bitBuf, r`numBits, r`inPos, r`rest
      ensures Ok() && After(sig, old(o.hist), old(|r.rest|), old(o.end - o.pos), 9)
    {
      InflateSteps.TableSizesStep(final, tableSizes, r.rest, o.hist, goal);
      var n := HeadWidth(|tableSizes|);
      var ok, v := r.GetBits(n);
      if !ok {
        r.AllLoaded();
        return NeedsInput;
      }
      sig := StoreSize(v + MIN_SIZES[|tableSizes|], old(|r.rest|));
    }

    method StoreSize(n: nat, ghost bits0: nat) returns (sig: Signal)
      requires Apart() && r.Valid() && o.Valid() && LeadsTo(AtTableSizes(final, tableSizes + [n]), r.rest, o.hist, goal)
      requires |tableSizes| < 3 && SmallSizes(tableSizes + [n]) && pc.TableSizes? && !filling && |r.rest| < bits0
      modifies this`st, this`tableSizes
      ensures Ok() && After(sig, old(o.hist), bits0, old(o.end - o.pos), 9)
    {
      tableSizes := tableSizes + [n];
      st := AtTableSizes(final, tableSizes);
      sig := Go;
    }

    function HeadWidth(i: nat): (n: nat)
      requires i < 3
      ensures n == HEAD_WIDTHS[i] && 4 <= n <= 5 && MIN_SIZES[i] + Pow2(n) - 1 <= [288, 32, MAX_CODE_LENGTHS][i]
    {
      Pow2Values();
      HEAD_WIDTHS[i]
    }

    /** All code lengths of the code length code start out as zero. */
    method TableSizesEnd() returns (sig: Signal)
      requires Apart() && Leading() && st == AtTableSizes(final, tableSizes) && |tableSizes| == 3
          && SmallSizes(tableSizes) && pc.TableSizes? && !filling
      modifies this`st, this`pc, this`counter, t2.codeSize
      ensures Ok() && After(sig, old(o.hist), old(|r.rest|), old(o.end - o.pos), 9)
    {
      TableSizesDone(final, tableSizes, r.rest, o.hist, goal);
      ClearSizes();
      assert t2.codeSize[..MAX_CODE_LENGTHS] == seq(MAX_CODE_LENGTHS, _ => 0);
      counter := 0;
      pc, st := ClSizes, AtClSizes(final, tableSizes, 0, t2.codeSize[..MAX_CODE_LENGTHS]);
      return Go;
    }

    method ClearSizes()
      requires Apart()
      modifies t2.codeSize
      ensures forall i :: 0 <= i < MAX_CODE_LENGTHS ==> t2.codeSize[i] == 0
    {
      for i := 0 to DecodeTable.MAX_SYMBOLS
        invariant forall k :: 0 <= k < i ==> t2.codeSize[k] == 0
      {
        t2.codeSize[i] := 0;
      }
    }

    /** One length of the code length code. */
    method ClSizesStep() returns (sig: Signal)
      requires Apart() && Leading() && st == AtClSizes(final, tableSizes, counter, t2.codeSize[..MAX_CODE_LENGTHS])
      requires |tableSizes| == 3 && SmallSizes(tableSizes) && counter < tableSizes[2] && pc.ClSizes? && !filling
      modifies this`st, this`counter, t2.codeSize, r`bitBuf, r`numBits, r`inPos, r`rest
      ensures Ok() && After(sig, old(o.hist), old(|r.rest|), old(o.end - o.pos), 8)
    {
      ghost var lens := t2.codeSize[..MAX_CODE_LENGTHS];
      InflateSteps.ClSizesStep(final, tableSizes, counter, lens, r.rest, o.hist, goal);
      var ok, v := r.GetBits(3);
      if !ok {
        r.AllLoaded();
        return NeedsInput;
      }
      sig := StoreClSize(v, lens, old(|r.rest|));
    }

    method StoreClSize(v: nat, ghost lens: seq<nat>, ghost bits0: nat) returns (sig: Signal)
      requires Apart() && r.Valid() && o.Valid() && counter < MAX_CODE_LENGTHS
          && lens == t2.codeSize[..MAX_CODE_LENGTHS]
      requires LeadsTo(AtClSizes(final, tableSizes, counter + 1, lens[Swizzle(counter) := v]), r.rest, o.hist, goal)
      requires |tableSizes| == 3 && SmallSizes(tableSizes) && pc.ClSizes? && !filling && |r.rest| < bits0
      modifies this`st, this`counter, t2.codeSize
      ensures Ok() && After(sig, old(o.hist), bits0, old(o.end - o.pos), 8)
    {
      SetSize(Swizzle(counter), v, lens);
      counter := counter + 1;
      st := AtClSizes(final, tableSizes, counter, t2.codeSize[..MAX_CODE_LENGTHS]);
      sig := Go;
    }

    method SetSize(i: nat, v: nat, ghost lens: seq<nat>)
      requires Apart() && i < MAX_CODE_LENGTHS && lens == t2.codeSize[..MAX_CODE_LENGTHS]
      modifies t2.codeSize
      ensures t2.codeSize[..MAX_CODE_LENGTHS] == lens[i := v]
    {
      t2.codeSize[i] := v;
    }

    /** The code length code is complete: its table is built. */
    method ClSizesEnd() returns (sig: Signal)
      requires Apart() && Leading() && st == AtClSizes(final, tableSizes, counter, t2.codeSize[..MAX_CODE_LENGTHS])
      requires |tableSizes| == 3 && SmallSizes(tableSizes) && counter >= tableSizes[2] && pc.ClSizes? && !filling
      modifies this`st, this`pc, this`lenCodes, t2, t2.lookUp, t2.tree
      ensures Ok() && After(sig, old(o.hist), old(|r.rest|), old(o.end - o.pos), 8)
    {
      ghost var lens := t2.codeSize[..MAX_CODE_LENGTHS];
      ClSizesDone(final, tableSizes, counter, lens, r.rest, o.hist, goal);
      BuildTable(t2, MAX_CODE_LENGTHS, lens);
      sig := EnterSizes(lens);
    }

    method EnterSizes(ghost cl: seq<nat>) returns (sig: Signal)
      requires Apart() && r.Valid() && o.Valid() && HuffDecode.Ready(t2, cl) && |tableSizes| == 3
          && SmallSizes(tableSizes) && !filling
      requires LeadsTo(AtSizes(final, tableSizes, cl, []), r.rest, o.hist, goal)
      modifies this`st, this`pc, this`lenCodes
      ensures Ok() && After(sig, old(o.hist), old(|r.rest|), old(o.end - o.pos), 8)
    {
      lenCodes := [];
      pc, st := LenSyms, AtSizes(final, tableSizes, cl, []);
      sig := Go;
    }

    /** One symbol of the code length code. */
    method LenSymsStep(ghost cl: seq<nat>) returns (sig: Signal)
      requires Apart() && Leading() && st == AtSizes(final, tableSizes, cl, lenCodes) && |tableSizes| == 3
          && SmallSizes(tableSizes)
      requires |lenCodes| < tableSizes[0] + tableSizes[1] && HuffDecode.Ready(t2, cl) && pc.LenSyms?
      requires filling ==> r.numBits < MAX_CODE_SIZE
      modifies this`st, this`pc, this`lenCodes, this`dist, this`numExtra, this`filling, r`bitBuf, r`numBits, r`inPos,
          r`rest
      ensures Ok() && After(sig, old(o.hist), old(|r.rest|), old(o.end - o.pos), 7)
    {
      ghost var bits0 := |r.rest|;
      ghost var next := SizesStep(final, tableSizes, cl, lenCodes, r.rest, o.hist, goal);
      var ok, sym := dec.Decode(t2, filling, cl, next);
      if ok {
        sig := SizeSymbol(sym, cl, bits0);
      } else {
        sig := Starved(cl[next]);
      }
    }

    /** A code length, or the start of a run. */
    method SizeSymbol(sym: nat, ghost cl: seq<nat>, ghost bits0: nat) returns (sig: Signal)
      requires Apart() && r.Valid() && o.Valid() && HuffDecode.Ready(t2, cl) && |tableSizes| == 3
          && SmallSizes(tableSizes) && pc.LenSyms?
      requires sym <= 18 && (sym == 16 ==> lenCodes != []) && |r.rest| < bits0
          && |lenCodes| < tableSizes[0] + tableSizes[1]
      requires sym < 16 ==> LeadsTo(AtSizes(final, tableSizes, cl, lenCodes + [sym]), r.rest, o.hist, goal)
      requires sym >= 16 ==> LeadsTo(AtRepeat(final, tableSizes, cl, lenCodes, sym), r.rest, o.hist, goal)
      modifies this`st, this`pc, this`lenCodes, this`dist, this`numExtra, this`filling
      ensures Ok() && After(sig, old(o.hist), bits0, old(o.end - o.pos), 7)
    {
      filling := false;
      if sym < 16 {
        lenCodes := lenCodes + [sym];
        st := AtSizes(final, tableSizes, cl, lenCodes);
        sig := Go;
      } else {
        sig := StartRun(sym, cl, bits0);
      }
    }

    method StartRun(sym: nat, ghost cl: seq<nat>, ghost bits0: nat) returns (sig: Signal)
      requires Apart() && r.Valid() && o.Valid() && HuffDecode.Ready(t2, cl) && |tableSizes| == 3
          && SmallSizes(tableSizes)
      requires 16 <= sym <= 18 && (sym == 16 ==> lenCodes != []) && |r.rest| < bits0
          && |lenCodes| < tableSizes[0] + tableSizes[1]
      requires LeadsTo(AtRepeat(final, tableSizes, cl, lenCodes, sym), r.rest, o.hist, goal) && !filling
      modifies this`st, this`pc, this`dist, this`numExtra
      ensures Ok() && After(sig, old(o.hist), bits0, old(o.end - o.pos), 7)
    {
      dist := sym;
      numExtra := RepeatWidth(sym);
      pc, st := LenRepeat, AtRepeat(final, tableSizes, cl, lenCodes, sym);
      sig := Go;
    }

    /** A symbol is not complete yet and the input of this call is used up. */
    method Starved(ghost need: nat) returns (sig: Signal)
      requires Apart() && Leading() && Agrees() && r.numBits < need <= MAX_CODE_SIZE && need <= |r.rest|
          && r.inPos == |r.inp| && Waits(st, r.rest, r.numBits)
      requires pc.Syms? || pc.DistSyms? || (pc.LenSyms? && |tableSizes| == 3
          && |lenCodes| < tableSizes[0] + tableSizes[1])
      modifies this`filling
      ensures Ok() && After(sig, old(o.hist), old(|r.rest|), old(o.end - o.pos), old(Rank(pc))) && filling
    {
      r.AllLoaded();
      filling := true;
      sig := NeedsInput;
    }

    /** The extra bits of a run of code lengths. */
    method LenRepeatStep(ghost cl: seq<nat>) returns (sig: Signal)
      requires Apart() && Leading() && st == AtRepeat(final, tableSizes, cl, lenCodes, dist) && |tableSizes| == 3
          && SmallSizes(tableSizes)
      requires HuffDecode.Ready(t2, cl) && 16 <= dist <= 18 && (dist == 16 ==> lenCodes != [])
          && numExtra == RepeatWidth(dist)
      requires |lenCodes| < tableSizes[0] + tableSizes[1] && pc.LenRepeat? && !filling
      modifies this`st, this`pc, this`lenCodes, r`bitBuf, r`numBits, r`inPos, r`rest
      ensures Ok() && After(sig, old(o.hist), old(|r.rest|), old(o.end - o.pos), 0)
    {
      ghost var next := NextAfterRun(cl, r.rest);
      sig := RunBits(cl, r.rest, next);
    }

    lemma NextAfterRun(cl: seq<nat>, rest: seq<bool>) returns (next: State)
      requires LeadsTo(AtRepeat(final, tableSizes, cl, lenCodes, dist), rest, o.hist, goal) && |tableSizes| == 3
      requires 16 <= dist <= 18 && (dist == 16 ==> lenCodes != []) && numExtra == RepeatWidth(dist)
      ensures numExtra <= |rest| && next == AfterRun(cl, Val(rest, numExtra))
          && LeadsTo(next, rest[numExtra..], o.hist, goal)
    {
      RepeatStep(final, tableSizes, cl, lenCodes, dist, rest, o.hist, goal);
      next := AfterRun(cl, Val(rest, numExtra));
    }

    /** No run is so long that it could leave `m_len_codes`. */
    lemma RunLength(sym: nat, v: nat)
      requires 16 <= sym <= 18 && v < Pow2(RepeatWidth(sym))
      ensures RepeatBase(sym) + v <= 138
    {
      Pow2Values();
    }

    /** The position behind a run whose extra bits are `v`. */
    ghost function AfterRun(cl: seq<nat>, v: nat): State
      reads this
      requires dist == 16 ==> lenCodes != []
    {
      AtSizes(final, tableSizes, cl, lenCodes + Run(RepeatBase(dist) + v,
          if dist == 16 then lenCodes[|lenCodes| - 1] else 0))
    }

    method RunBits(ghost cl: seq<nat>, ghost rest: seq<bool>, ghost next: State) returns (sig: Signal)
      requires Apart() && Leading() && Agrees() && pc.LenRepeat? && !filling
          && st == AtRepeat(final, tableSizes, cl, lenCodes, dist)
      requires r.rest == rest && numExtra <= |rest| && next == AfterRun(cl, Val(rest, numExtra))
      requires LeadsTo(next, rest[numExtra..], o.hist, goal)
      modifies this`st, this`pc, this`lenCodes, r`bitBuf, r`numBits, r`inPos, r`rest
      ensures Ok() && After(sig, old(o.hist), |rest|, old(o.end - o.pos), 0)
    {
      var ok, v := r.GetBits(numExtra);
      if ok {
        assert next == AfterRun(cl, v);
        RunLength(dist, v);
        sig := AddRun(RepeatBase(dist) + v, cl, |rest|, next);
      } else {
        sig := Wait(numExtra);
      }
    }

    /** More bits are needed and the input of this call is used up. */
    method Wait(ghost need: nat) returns (sig: Signal)
      requires Apart() && Leading() && Agrees() && !filling && r.numBits < need <= |r.rest| && r.inPos == |r.inp|
          && Waits(st, r.rest, r.numBits)
      ensures Ok() && After(sig, o.hist, |r.rest|, o.end - o.pos, 0) && sig.NeedsInput?
    {
      r.AllLoaded();
      sig := NeedsInput;
    }

    method AddRun(n: nat, ghost cl: seq<nat>, ghost bits0: nat, ghost next: State) returns (sig: Signal)
      requires Apart() && r.Valid() && o.Valid() && HuffDecode.Ready(t2, cl) && |tableSizes| == 3
          && SmallSizes(tableSizes)
      requires (dist == 16 ==> lenCodes != []) && |r.rest| < bits0 && !filling
      requires |lenCodes| < tableSizes[0] + tableSizes[1] && n <= 138
      requires next == AtSizes(final, tableSizes, cl,
          lenCodes + Run(n, if dist == 16 then lenCodes[|lenCodes| - 1] else 0))
      requires LeadsTo(next, r.rest, o.hist, goal)
      modifies this`st, this`pc, this`lenCodes
      ensures Ok() && After(sig, old(o.hist), bits0, old(o.end - o.pos), 0)
    {
      lenCodes := lenCodes + Run(n, if dist == 16 then lenCodes[|lenCodes| - 1] else 0);
      pc, st := LenSyms, AtSizes(final, tableSizes, cl, lenCodes);
      sig := Go;
    }

    /** All code lengths are there: both tables are built. */
    method SizesEnd(ghost cl: seq<nat>) returns (sig: Signal)
      requires Apart() && Leading() && st == AtSizes(final, tableSizes, cl, lenCodes) && |tableSizes| == 3
          && SmallSizes(tableSizes)
      requires |lenCodes| >= tableSizes[0] + tableSizes[1] && pc.LenSyms? && !filling
      modifies this`st, this`pc, t0, t0.codeSize, t0.lookUp, t0.tree, t1, t1.codeSize, t1.lookUp, t1.tree
      ensures Ok() && After(sig, old(o.hist), old(|r.rest|), old(o.end - o.pos), 7)
    {
      SizesDone(final, tableSizes, cl, lenCodes, r.rest, o.hist, goal);
      var nLit, nDist := tableSizes[0], tableSizes[1];
      ghost var c, bits0 := Codes(final, lenCodes[..nLit], lenCodes[nLit..]), |r.rest|;
      LoadTables(nLit, nDist, c);
      sig := EnterSymbols(c, bits0, 7);
    }

    method LoadTables(nLit: nat, nDist: nat, ghost c: Codes)
      requires Apart() && nLit <= 288 && nDist <= 32 && |lenCodes| == nLit + nDist
      requires c.lit == lenCodes[..nLit] && c.dist == lenCodes[nLit..] && Decodable(c.lit) && Decodable(c.dist)
      modifies t0, t0.codeSize, t0.lookUp, t0.tree, t1, t1.codeSize, t1.lookUp, t1.tree
      ensures CodesReady(c)
    {
      CopySizes(t0, lenCodes[..nLit]);
      CopySizes(t1, lenCodes[nLit..]);
      assert t0.codeSize[..nLit] == c.lit;
      BuildBoth(nLit, nDist, c);
    }

    method CopySizes(t: DecodeTableBuilder.Table, sizes: seq<nat>)
      requires t.Valid() && |sizes| <= DecodeTable.MAX_SYMBOLS
      modifies t.codeSize
      ensures t.codeSize[..|sizes|] == sizes
    {
      for i := 0 to |sizes|
        invariant t.codeSize[..i] == sizes[..i]
      {
        t.codeSize[i] := sizes[i];
        assert t.codeSize[..i + 1] == t.codeSize[..i] + [sizes[i]] && sizes[..i + 1] == sizes[..i] + [sizes[i]];
      }
    }

    // ---- Compressed data

    /** One literal/length symbol, carefully: near the end of the input or of the room for output. */
    method SymsSlow(ghost c: Codes) returns (sig: Signal)
      requires Apart() && Leading() && st == AtSymbols(c) && c.final == final && CodesReady(c) && pc.Syms?
      requires filling ==> r.numBits < MAX_CODE_SIZE
      modifies this`st, this`pc, this`counter, this`numExtra, this`filling, r`bitBuf, r`numBits, r`inPos, r`rest
      ensures Ok() && After(sig, old(o.hist), old(|r.rest|), old(o.end - o.pos), 3)
    {
      ghost var bits0 := |r.rest|;
      ghost var next := SymbolStep(c, r.rest, o.hist, goal);
      var ok, sym := dec.Decode(t0, filling, c.lit, next);
      if ok {
        filling := false;
        sig := AfterSymbol(sym, c, bits0);
      } else {
        sig := Starved(c.lit[next]);
      }
    }

    /** What follows a literal/length symbol. */
    method AfterSymbol(sym: nat, ghost c: Codes, ghost bits0: nat) returns (sig: Signal)
      requires Apart() && r.Valid() && o.Valid() && c.final == final && CodesReady(c) && !filling
      requires SymbolLeads(sym, c, r.rest, o.hist, goal) && |r.rest| < bits0
      modifies this`st, this`pc, this`counter, this`numExtra
      ensures Ok() && After(sig, old(o.hist), bits0, old(o.end - o.pos), 3)
    {
      if sym < 256 {
        sig := ToLiteral(sym, c, bits0);
      } else {
        sig := EndOrMatch(sym, c, bits0, o.end - o.pos);
      }
    }

    method ToLiteral(sym: nat, ghost c: Codes, ghost bits0: nat) returns (sig: Signal)
      requires Apart() && r.Valid() && o.Valid() && c.final == final && CodesReady(c) && !filling
      requires sym < 256 && LeadsTo(AtLiteral(c, sym), r.rest, o.hist, goal) && |r.rest| < bits0
      modifies this`st, this`pc, this`counter
      ensures Ok() && After(sig, old(o.hist), bits0, old(o.end - o.pos), 3)
    {
      counter := sym;
      pc, st := LitOut, AtLiteral(c, sym);
      sig := Go;
    }

    /** The end of the block, or the length of a match. */
    method EndOrMatch(sym: nat, ghost c: Codes, ghost bits0: nat, ghost room0: nat) returns (sig: Signal)
      requires Apart() && r.Valid() && o.Valid() && c.final == final && CodesReady(c) && !filling
      requires SymbolLeads(sym, c, r.rest, o.hist, goal) && sym >= 256 && |r.rest| < bits0
      modifies this`st, this`pc, this`counter, this`numExtra
      ensures Ok() && sig.Go? && |r.rest| < bits0
    {
      if sym == 256 {
        EndOfCodes(c);
      } else {
        LengthRange(sym);
        ToLength(LENGTH_BASE[sym - 257], LENGTH_EXTRA[sym - 257], c,
                 AtLenBits(c, LENGTH_BASE[sym - 257], LENGTH_EXTRA[sym - 257]));
      }
      sig := Go;
    }

    method EndOfCodes(ghost c: Codes)
      requires Apart() && r.Valid() && o.Valid() && c.final == final && !filling
      requires LeadsTo(if final then AtEnd else AtHead, r.rest, o.hist, goal)
      modifies this`st, this`pc
      ensures Ok()
    {
      st := if final then AtEnd else AtHead;
      pc := if final then Finished else Head;
    }

    method ToLength(base: nat, extra: nat, ghost c: Codes, ghost next: State)
      requires Apart() && r.Valid() && o.Valid() && c.final == final && CodesReady(c) && !filling
      requires base >= MIN_MATCH && extra <= 5 && next == AtLenBits(c, base, extra)
      requires LeadsTo(next, r.rest, o.hist, goal)
      modifies this`st, this`pc, this`counter, this`numExtra
      ensures Ok()
    {
      counter, numExtra := base, extra;
      pc, st := LenBits, next;
    }

    method LitOutStep(ghost c: Codes) returns (sig: Signal)
      requires Apart() && Leading() && counter < 256 && st == AtLiteral(c, counter) && c.final == final && CodesReady(c)
      requires pc.LitOut? && !filling
      modifies this`st, this`pc, o`pos, o`hist, o.buf
      ensures Ok() && After(sig, old(o.hist), old(|r.rest|), old(o.end - o.pos), 0)
    {
      if o.pos >= o.end {
        return FullOutput;
      }
      LiteralStep(c, counter, r.rest, o.hist, goal);
      Emit(counter, AtSymbols(c));
      pc := Syms;
      return Go;
    }

    // ---- Matches

    /** `num_extra` bits, if any. */
    method ExtraBits() returns (ok: bool, v: nat)
      requires r.Valid() && numExtra <= 13 && numExtra <= |r.rest|
      modifies r`bitBuf, r`numBits, r`inPos, r`rest
      ensures r.Valid()
      ensures ok ==> v == Val(old(r.rest), numExtra) && r.rest == old(r.rest)[numExtra..]
      ensures !ok ==> r.rest == old(r.rest) && r.numBits < numExtra && r.inPos == |r.inp|
    {
      ok, v := true, 0;
      if numExtra > 0 {
        ok, v := r.GetBits(numExtra);
      } else {
        NoBits(r.rest);
      }
    }

    lemma NoBits(bits: seq<bool>)
      ensures Val(bits, 0) == 0 && bits[0..] == bits
    {
    }

    /** The extra bits of a length. */
    method LenBitsStep(ghost c: Codes) returns (sig: Signal)
      requires Apart() && Leading() && Agrees() && st == AtLenBits(c, counter, numExtra) && pc.LenBits? && !filling
      modifies this`st, this`pc, this`counter, r`bitBuf, r`numBits, r`inPos, r`rest
      ensures Ok() && After(sig, old(o.hist), old(|r.rest|), old(o.end - o.pos), 6)
    {
      ghost var next := NextAfterLength(c, r.rest);
      sig := LenBitsRead(c, r.rest, next);
    }

    lemma NextAfterLength(c: Codes, rest: seq<bool>) returns (next: State)
      requires LeadsTo(AtLenBits(c, counter, numExtra), rest, o.hist, goal)
      ensures numExtra <= |rest| && next == AtDist(c, counter + Val(rest, numExtra))
          && LeadsTo(next, rest[numExtra..], o.hist, goal)
    {
      InflateSteps.LenBitsStep(c, counter, numExtra, rest, o.hist, goal);
      next := AtDist(c, counter + Val(rest, numExtra));
    }

    method LenBitsRead(ghost c: Codes, ghost rest: seq<bool>, ghost next: State) returns (sig: Signal)
      requires Apart() && Leading() && Agrees() && st == AtLenBits(c, counter, numExtra) && pc.LenBits? && !filling
      requires r.rest == rest && numExtra <= |rest| && next == AtDist(c, counter + Val(rest, numExtra))
      requires LeadsTo(next, rest[numExtra..], o.hist, goal)
      modifies this`st, this`pc, this`counter, r`bitBuf, r`numBits, r`inPos, r`rest
      ensures Ok() && After(sig, old(o.hist), |rest|, old(o.end - o.pos), 6)
    {
      var ok, v := ExtraBits();
      if ok {
        sig := ToDistance(counter + v, c, |rest|, next);
      } else {
        sig := Wait(numExtra);
      }
    }

    method ToDistance(len: nat, ghost c: Codes, ghost bits0: nat, ghost next: State) returns (sig: Signal)
      requires Apart() && r.Valid() && o.Valid() && c.final == final && CodesReady(c) && !filling && len >= MIN_MATCH
      requires next == AtDist(c, len) && LeadsTo(next, r.rest, o.hist, goal) && |r.rest| <= bits0
      modifies this`st, this`pc, this`counter
      ensures Ok() && After(sig, old(o.hist), bits0, old(o.end - o.pos), 6)
    {
      counter := len;
      pc, st := DistSyms, next;
      sig := Go;
    }

    method DistSymsStep(ghost c: Codes) returns (sig: Signal)
      requires Apart() && Leading() && st == AtDist(c, counter) && c.final == final && CodesReady(c)
          && counter >= MIN_MATCH && pc.DistSyms?
      requires filling ==> r.numBits < MAX_CODE_SIZE
      modifies this`st, this`pc, this`dist, this`numExtra, this`filling, r`bitBuf, r`numBits, r`inPos, r`rest
      ensures Ok() && After(sig, old(o.hist), old(|r.rest|), old(o.end - o.pos), 5)
    {
      ghost var bits0 := |r.rest|;
      ghost var next := DistStep(c, counter, r.rest, o.hist, goal);
      var ok, sym := dec.Decode(t1, filling, c.dist, next);
      if ok {
        DistanceRange(sym);
        filling := false;
        sig := ToDistBits(DIST_BASE[sym], DIST_EXTRA[sym], c, bits0,
            AtDistBits(c, counter, DIST_BASE[sym], DIST_EXTRA[sym]));
      } else {
        sig := Starved(c.dist[next]);
      }
    }

    method ToDistBits(base: nat, extra: nat, ghost c: Codes, ghost bits0: nat, ghost next: State) returns (sig: Signal)
      requires Apart() && r.Valid() && o.Valid() && c.final == final && CodesReady(c) && counter >= MIN_MATCH
          && !filling
      requires SmallDistance(base, extra) && next == AtDistBits(c, counter, base, extra)
      requires LeadsTo(next, r.rest, o.hist, goal) && |r.rest| < bits0
      modifies this`st, this`pc, this`dist, this`numExtra
      ensures Ok() && After(sig, old(o.hist), bits0, old(o.end - o.pos), 5)
    {
      dist, numExtra := base, extra;
      pc, st := DistBits, next;
      sig := Go;
    }

    /** The extra bits of a distance. */
    method DistBitsStep(ghost c: Codes) returns (sig: Signal)
      requires Apart() && Leading() && Agrees() && st == AtDistBits(c, counter, dist, numExtra) && pc.DistBits?
          && !filling
      modifies this`st, this`pc, this`dist, r`bitBuf, r`numBits, r`inPos, r`rest
      ensures Ok() && After(sig, old(o.hist), old(|r.rest|), old(o.end - o.pos), 6)
    {
      ghost var next := NextAfterDistance(c, r.rest);
      sig := DistBitsRead(c, r.rest, next);
    }

    lemma NextAfterDistance(c: Codes, rest: seq<bool>) returns (next: State)
      requires LeadsTo(AtDistBits(c, counter, dist, numExtra), rest, o.hist, goal)
      ensures numExtra <= |rest| && next == AtCopy(c, counter, dist + Val(rest, numExtra))
          && LeadsTo(next, rest[numExtra..], o.hist, goal)
    {
      InflateSteps.DistBitsStep(c, counter, dist, numExtra, rest, o.hist, goal);
      next := AtCopy(c, counter, dist + Val(rest, numExtra));
    }

    method DistBitsRead(ghost c: Codes, ghost rest: seq<bool>, ghost next: State) returns (sig: Signal)
      requires Apart() && Leading() && Agrees() && st == AtDistBits(c, counter, dist, numExtra) && pc.DistBits?
          && !filling
      requires r.rest == rest && numExtra <= |rest| && next == AtCopy(c, counter, dist + Val(rest, numExtra))
      requires LeadsTo(next, rest[numExtra..], o.hist, goal)
      modifies this`st, this`pc, this`dist, r`bitBuf, r`numBits, r`inPos, r`rest
      ensures Ok() && After(sig, old(o.hist), |rest|, old(o.end - o.pos), 6)
    {
      var ok, v := ExtraBits();
      if ok {
        sig := ToCopy(dist + v, c, |rest|, next);
      } else {
        sig := Wait(numExtra);
      }
    }

    method ToCopy(d: nat, ghost c: Codes, ghost bits0: nat, ghost next: State) returns (sig: Signal)
      requires Apart() && r.Valid() && o.Valid() && c.final == final && CodesReady(c) && !filling
          && counter >= MIN_MATCH && d <= MAX_DIST
      requires next == AtCopy(c, counter, d) && LeadsTo(next, r.rest, o.hist, goal) && |r.rest| <= bits0
      modifies this`st, this`pc, this`dist
      ensures Ok() && After(sig, old(o.hist), bits0, old(o.end - o.pos), 6)
    {
      dist := d;
      pc, st := CopyStart, next;
      sig := Go;
    }

    /** The fast copy, unless source or target could run into the end of the buffer. */
    method CopyStartStep(ghost c: Codes) returns (sig: Signal)
      requires Apart() && Leading() && st == AtCopy(c, counter, dist) && c.final == final && CodesReady(c)
      requires counter >= MIN_MATCH && dist <= MAX_DIST && pc.CopyStart? && !filling
      modifies this`st, this`pc, o`pos, o`hist, o.buf
      ensures Ok() && After(sig, old(o.hist), old(|r.rest|), old(o.end - o.pos), 5)
    {
      InflateSteps.CopyStep(c, counter, dist, r.rest, o.hist, goal);
      o.BackSlot(dist);
      var src := if o.wrapping then (o.pos - dist) % o.buf.Length else o.pos - dist;
      var last := if o.pos > src then o.pos else src;
      if last + counter > o.end {
        pc := CopySlow;
        sig := Go;
      } else {
        sig := CopyAtOnce(c);
      }
    }

    method CopyAtOnce(ghost c: Codes) returns (sig: Signal)
      requires Apart() && r.Valid() && o.Valid() && c.final == final && CodesReady(c) && !filling
      requires MIN_MATCH <= counter && 1 <= dist <= MAX_DIST && dist <= |o.hist| && o.pos + counter <= o.end
      requires o.Slot(|o.hist| - dist) + counter <= o.end
          && LeadsTo(AtSymbols(c), r.rest, Copy(o.hist, counter, dist), goal)
      modifies this`st, this`pc, o`pos, o`hist, o.buf
      ensures Ok() && After(sig, old(o.hist), old(|r.rest|), old(o.end - o.pos), 5)
    {
      o.CopyFast(counter, dist);
      pc, st := Syms, AtSymbols(c);
      sig := Go;
    }

    /** One byte of a match that does not fit in one piece. */
    method CopySlowStep(ghost c: Codes) returns (sig: Signal)
      requires Apart() && Leading() && st == AtCopy(c, counter, dist) && c.final == final && CodesReady(c)
      requires dist <= MAX_DIST && pc.CopySlow? && !filling
      modifies this`st, this`pc, this`counter, o`pos, o`hist, o.buf
      ensures Ok() && After(sig, old(o.hist), old(|r.rest|), old(o.end - o.pos), 4)
    {
      ghost var next, b := NextAfterCopy(c, r.rest, o.hist);
      if counter == 0 {
        pc, st := Syms, next;
        sig := Go;
      } else if o.pos >= o.end {
        sig := FullOutput;
      } else {
        sig := CopyOneSlow(c, next, b);
      }
    }

    lemma NextAfterCopy(c: Codes, rest: seq<bool>, out: seq<Byte>) returns (next: State, b: Byte)
      requires LeadsTo(AtCopy(c, counter, dist), rest, out, goal)
      ensures 1 <= dist <= |out| && b == out[|out| - dist]
      ensures if counter == 0 then next == AtSymbols(c) && LeadsTo(next, rest, out, goal)
              else next == AtCopy(c, counter - 1, dist) && LeadsTo(next, rest, out + [b], goal)
    {
      InflateSteps.CopyStep(c, counter, dist, rest, out, goal);
      next := if counter == 0 then AtSymbols(c) else AtCopy(c, counter - 1, dist);
      b := out[|out| - dist];
    }

    method CopyOneSlow(ghost c: Codes, ghost next: State, ghost last: Byte) returns (sig: Signal)
      requires Apart() && r.Valid() && o.Valid() && c.final == final && CodesReady(c) && !filling && pc.CopySlow?
      requires 1 <= dist <= MAX_DIST && dist <= |o.hist| && counter > 0 && o.pos < o.end
      requires last == o.hist[|o.hist| - dist] && next == AtCopy(c, counter - 1, dist)
          && LeadsTo(next, r.rest, o.hist + [last], goal)
      modifies this`st, this`counter, o`pos, o`hist, o.buf
      ensures Ok() && After(sig, old(o.hist), old(|r.rest|), old(o.end - o.pos), 4)
    {
      var b := o.Back(dist);
      Emit(b, next);
      counter := counter - 1;
      sig := Go;
    }

    // ---- The fast path: two symbols at a time

    /** `MZ_READ_LE32`: four bytes at once, when the bit buffer runs low. */
    method LoadFour()
      requires r.Valid() && r.numBits < 30 && r.inPos + 4 <= |r.inp|
      modifies r`bitBuf, r`numBits, r`inPos
      ensures r.Valid() && r.rest == old(r.rest) && r.numBits == old(r.numBits) + 32
    {
      r.LoadByte();
      r.LoadByte();
      r.LoadByte();
      r.LoadByte();
    }

    /** The next literal/length symbol, of which enough is loaded. */
    method TakeSymbol(ghost c: Codes, ghost out: seq<Byte>) returns (sym: nat)
      requires Apart() && r.Valid() && CodesReady(c) && LeadsTo(AtSymbols(c), r.rest, out, goal)
          && r.numBits >= MAX_CODE_SIZE
      modifies r`bitBuf, r`numBits, r`rest
      ensures r.Valid() && CodesReady(c) && SymbolLeads(sym, c, r.rest, out, goal)
      ensures |r.rest| < |old(r.rest)| && r.numBits + MAX_CODE_SIZE >= old(r.numBits)
    {
      ghost var next := SymbolStep(c, r.rest, out, goal);
      sym := TakeKnown(c, next);
    }

    method TakeKnown(ghost c: Codes, ghost next: nat) returns (sym: nat)
      requires Apart() && r.Valid() && CodesReady(c) && Next(c.lit, r.rest, next) && r.numBits >= MAX_CODE_SIZE
      modifies r`bitBuf, r`numBits, r`rest
      ensures r.Valid() && CodesReady(c) && sym == next && 1 <= c.lit[next] <= |old(r.rest)|
          && r.rest == old(r.rest)[c.lit[next]..]
      ensures r.numBits + MAX_CODE_SIZE >= old(r.numBits)
    {
      dec.SizeIsSmall(t0, c.lit, next);
      sym := dec.Take(t0, c.lit, next);
    }

    /** Two symbols, or one that is no literal. */
    method SymsFast(ghost c: Codes) returns (sig: Signal)
      requires Apart() && Leading() && st == AtSymbols(c) && c.final == final && CodesReady(c) && pc.Syms? && !filling
      requires r.inPos + 4 <= |r.inp| && o.pos + 2 <= o.end
      modifies this`st, this`pc, this`counter, this`numExtra, r`bitBuf, r`numBits, r`inPos, r`rest, o`pos, o`hist, o.buf
      ensures Ok() && After(sig, old(o.hist), old(|r.rest|), old(o.end - o.pos), 3)
    {
      if r.numBits < 30 {
        LoadFour();
      }
      var sym := TakeSymbol(c, o.hist);
      if sym >= 256 {
        sig := EndOrMatch(sym, c, old(|r.rest|), o.end - o.pos);
      } else {
        sig := SecondSymbol(sym, c, old(|r.rest|));
      }
    }

    method SecondSymbol(first: nat, ghost c: Codes, ghost bits0: nat) returns (sig: Signal)
      requires Apart() && r.Valid() && o.Valid() && c.final == final && CodesReady(c) && pc.Syms? && !filling
      requires first < 256 && SymbolLeads(first, c, r.rest, o.hist, goal) && r.numBits >= MAX_CODE_SIZE
          && o.pos + 2 <= o.end
      requires |r.rest| < bits0
      modifies this`st, this`pc, this`counter, this`numExtra, r`bitBuf, r`numBits, r`rest, o`pos, o`hist, o.buf
      ensures Ok() && After(sig, old(o.hist), bits0, old(o.end - o.pos), 3)
    {
      LiteralStep(c, first, r.rest, o.hist, goal);
      var sym := TakeSymbol(c, o.hist + [first]);
      o.Put(first);
      if sym >= 256 {
        sig := EndOrMatch(sym, c, bits0, o.end - o.pos);
      } else {
        LiteralStep(c, sym, r.rest, o.hist, goal);
        Emit(sym, AtSymbols(c));
        sig := Go;
      }
    }

    /** Literals and lengths: fast while there is enough input and room. */
    method SymsStep(ghost c: Codes) returns (sig: Signal)
      requires Apart() && Leading() && st == AtSymbols(c) && c.final == final && CodesReady(c) && pc.Syms?
      requires filling ==> r.numBits < MAX_CODE_SIZE
      modifies this`st, this`pc, this`counter, this`numExtra, this`filling, r`bitBuf, r`numBits, r`inPos, r`rest,
          o`pos, o`hist, o.buf
      ensures Ok() && After(sig, old(o.hist), old(|r.rest|), old(o.end - o.pos), 3)
    {
      if filling || |r.inp| - r.inPos < 4 || o.end - o.pos < 2 {
        sig := SymsSlow(c);
      } else {
        sig := SymsFast(c);
      }
    }

    // ---- The coroutine

    method HeaderStep() returns (sig: Signal)
      requires Ok() && (pc.Head? || pc.RawHead?) && !filling
      modifies this`st, this`pc, this`final, this`rawHeader, this`tableSizes, this`lenCodes, this`counter, this`dist,
          this`numExtra, this`filling
      modifies r`bitBuf, r`numBits, r`inPos, r`rest, o`pos, o`hist, o.buf
      modifies t0, t0.codeSize, t0.lookUp, t0.tree, t1, t1.codeSize, t1.lookUp, t1.tree, t2, t2.codeSize, t2.lookUp,
          t2.tree
      ensures Ok() && After(sig, old(o.hist), old(|r.rest|), old(o.end - o.pos), old(Rank(pc)))
    {
      if pc.Head? {
        sig := HeadStep();
      } else if |rawHeader| < 4 {
        sig := RawHeadStep();
      } else {
        sig := RawHeadEnd();
      }
    }

    method StoredBlockStep() returns (sig: Signal)
      requires Ok() && (pc.RawBits? || pc.RawOut? || pc.RawCopy?) && !filling
      modifies this`st, this`pc, this`final, this`rawHeader, this`tableSizes, this`lenCodes, this`counter, this`dist,
          this`numExtra, this`filling
      modifies r`bitBuf, r`numBits, r`inPos, r`rest, o`pos, o`hist, o.buf
      modifies t0, t0.codeSize, t0.lookUp, t0.tree, t1, t1.codeSize, t1.lookUp, t1.tree, t2, t2.codeSize, t2.lookUp,
          t2.tree
      ensures Ok() && After(sig, old(o.hist), old(|r.rest|), old(o.end - o.pos), old(Rank(pc)))
    {
      if pc.RawBits? {
        sig := RawBitsStep();
      } else if pc.RawOut? {
        sig := RawOutStep();
      } else {
        sig := RawCopyStep();
      }
    }

    method CodeLengthStep() returns (sig: Signal)
      requires Ok() && (pc.TableSizes? || pc.ClSizes?) && !filling
      modifies this`st, this`pc, this`final, this`rawHeader, this`tableSizes, this`lenCodes, this`counter, this`dist,
          this`numExtra, this`filling
      modifies r`bitBuf, r`numBits, r`inPos, r`rest, o`pos, o`hist, o.buf
      modifies t0, t0.codeSize, t0.lookUp, t0.tree, t1, t1.codeSize, t1.lookUp, t1.tree, t2, t2.codeSize, t2.lookUp,
          t2.tree
      ensures Ok() && After(sig, old(o.hist), old(|r.rest|), old(o.end - o.pos), old(Rank(pc)))
    {
      if pc.TableSizes? {
        if |tableSizes| < 3 {
          sig := TableSizesStep();
        } else {
          sig := TableSizesEnd();
        }
      } else if counter < tableSizes[2] {
        sig := ClSizesStep();
      } else {
        sig := ClSizesEnd();
      }
    }

    method CodeSizesStep() returns (sig: Signal)
      requires Ok() && (pc.LenSyms? || (pc.LenRepeat? && !filling))
      modifies this`st, this`pc, this`final, this`rawHeader, this`tableSizes, this`lenCodes, this`counter, this`dist,
          this`numExtra, this`filling
      modifies r`bitBuf, r`numBits, r`inPos, r`rest, o`pos, o`hist, o.buf
      modifies t0, t0.codeSize, t0.lookUp, t0.tree, t1, t1.codeSize, t1.lookUp, t1.tree, t2, t2.codeSize, t2.lookUp,
          t2.tree
      ensures Ok() && After(sig, old(o.hist), old(|r.rest|), old(o.end - o.pos), old(Rank(pc)))
    {
      if pc.LenRepeat? {
        sig := LenRepeatStep(st.cl);
      } else if |lenCodes| < tableSizes[0] + tableSizes[1] {
        sig := LenSymsStep(st.cl);
      } else {
        sig := SizesEnd(st.cl);
      }
    }

    method SymbolsStep() returns (sig: Signal)
      requires Ok() && (pc.Syms? || pc.DistSyms? || (pc.LitOut? && !filling))
      modifies this`st, this`pc, this`final, this`rawHeader, this`tableSizes, this`lenCodes, this`counter, this`dist,
          this`numExtra, this`filling
      modifies r`bitBuf, r`numBits, r`inPos, r`rest, o`pos, o`hist, o.buf
      modifies t0, t0.codeSize, t0.lookUp, t0.tree, t1, t1.codeSize, t1.lookUp, t1.tree, t2, t2.codeSize, t2.lookUp,
          t2.tree
      ensures Ok() && After(sig, old(o.hist), old(|r.rest|), old(o.end - o.pos), old(Rank(pc)))
    {
      if pc.Syms? {
        sig := SymsStep(st.c);
      } else if pc.DistSyms? {
        sig := DistSymsStep(st.c);
      } else {
        sig := LitOutStep(st.c);
      }
    }

    method MatchStep() returns (sig: Signal)
      requires Ok() && (pc.LenBits? || pc.DistBits? || pc.CopyStart? || pc.CopySlow?) && !filling
      modifies this`st, this`pc, this`final, this`rawHeader, this`tableSizes, this`lenCodes, this`counter, this`dist,
          this`numExtra, this`filling
      modifies r`bitBuf, r`numBits, r`inPos, r`rest, o`pos, o`hist, o.buf
      modifies t0, t0.codeSize, t0.lookUp, t0.tree, t1, t1.codeSize, t1.lookUp, t1.tree, t2, t2.codeSize, t2.lookUp,
          t2.tree
      ensures Ok() && After(sig, old(o.hist), old(|r.rest|), old(o.end - o.pos), old(Rank(pc)))
    {
      if pc.LenBits? {
        sig := LenBitsStep(st.c);
      } else if pc.DistBits? {
        sig := DistBitsStep(st.c);
      } else if pc.CopyStart? {
        sig := CopyStartStep(st.c);
      } else {
        sig := CopySlowStep(st.c);
      }
    }

    /** One step from wherever the coroutine is. */
    method Step() returns (sig: Signal)
      requires Ok()
      modifies this`st, this`pc, this`final, this`rawHeader, this`tableSizes, this`lenCodes, this`counter, this`dist,
          this`numExtra, this`filling
      modifies r`bitBuf, r`numBits, r`inPos, r`rest, o`pos, o`hist, o.buf
      modifies t0, t0.codeSize, t0.lookUp, t0.tree, t1, t1.codeSize, t1.lookUp, t1.tree, t2, t2.codeSize, t2.lookUp,
          t2.tree
      ensures Ok() && After(sig, old(o.hist), old(|r.rest|), old(o.end - o.pos), old(Rank(pc)))
    {
      if pc.Head? || pc.RawHead? {
        sig := HeaderStep();
      } else if pc.RawBits? || pc.RawOut? || pc.RawCopy? {
        sig := StoredBlockStep();
      } else if pc.TableSizes? || pc.ClSizes? {
        sig := CodeLengthStep();
      } else if pc.LenSyms? || pc.LenRepeat? {
        sig := CodeSizesStep();
      } else if pc.Syms? || pc.DistSyms? || pc.LitOut? {
        sig := SymbolsStep();
      } else if pc.Finished? {
        sig := Over;
      } else {
        sig := MatchStep();
      }
    }

    /** Goes on until the input of this call is used up, the output is full, or the stream ends. */
    method Resume() returns (sig: Signal)
      requires Ok()
      modifies this`st, this`pc, this`final, this`rawHeader, this`tableSizes, this`lenCodes, this`counter, this`dist,
          this`numExtra, this`filling
      modifies r`bitBuf, r`numBits, r`inPos, r`rest, o`pos, o`hist, o.buf
      modifies t0, t0.codeSize, t0.lookUp, t0.tree, t1, t1.codeSize, t1.lookUp, t1.tree, t2, t2.codeSize, t2.lookUp,
          t2.tree
      ensures Ok() && !sig.Go? && After(sig, old(o.hist), old(|r.rest|), old(o.end - o.pos), 0)
    {
      ghost var hist0, room0 := o.hist, o.end - o.pos;
      while true
        invariant Ok() && hist0 <= o.hist && |o.hist| + (o.end - o.pos) == |hist0| + room0
        decreases |r.rest|, o.end - o.pos, Rank(pc)
      {
        sig := Step();
        if !sig.Go? {
          return;
        }
      }
    }

    // ---- Where it ends

    /** At the end of the stream all output is there. */
    lemma AtTheEnd()
      requires Ok() && pc.Finished?
      ensures goal == Done(o.hist, r.rest)
    {
      assert Shown(AtEnd, 0);
    }

    /** What has been produced is the beginning of the result, and not all of it when a byte waits for room. */
    lemma SoFar()
      requires Ok()
      ensures goal.Done? && o.hist <= goal.out && (Writing() ==> |o.hist| < |goal.out|)
    {
      Grows(st, r.rest, o.hist, goal);
      if pc.RawCopy? && counter > 0 {
        StoredStep(final, counter, r.rest, o.hist, goal);
        var b := Val(r.rest, 8);
        StoredByteStep(final, counter - 1, b, r.rest[8..], o.hist, goal);
        Grows(AtStored(final, counter - 1), r.rest[8..], o.hist + [b], goal);
      } else if Writing() {
        ghost var next, out := OneByteOn();
        Grows(next, r.rest, out, goal);
      }
    }

    lemma OneByteOn() returns (next: State, out: seq<Byte>)
      requires Ok() && Writing() && !pc.RawCopy?
      ensures |out| > |o.hist| && LeadsTo(next, r.rest, out, goal)
    {
      if pc.RawOut? {
        StoredByteStep(final, counter - 1, dist, r.rest, o.hist, goal);
        next, out := AtStored(final, counter - 1), o.hist + [dist];
      } else if pc.LitOut? {
        LiteralStep(st.c, counter, r.rest, o.hist, goal);
        next, out := AtSymbols(st.c), o.hist + [counter];
      } else {
        InflateSteps.CopyStep(st.c, counter, dist, r.rest, o.hist, goal);
        next, out := AtSymbols(st.c), Copy(o.hist, counter, dist);
      }
    }
  }
}
