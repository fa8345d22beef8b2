/**
 The calls that wrap the decompressor (`tinfl_decompress_mem_to_mem`,
 `tinfl_decompress_mem_to_callback`), input that arrives in pieces, and the law at
 the centre of it all: decompressing undoes compressing.
 */
module RoundTrip {
  import opened Bits
  import opened InflateSpec
  import opened InflateSteps
  import opened Decompressor
  import Adler
  import Deflate
  import FlushBlock
  import OutBuffer

  datatype Option<T> = None | Some(value: T)

  /** `TINFL_LZ_DICT_SIZE` */
  const RING := 32768

  // ---- Any stream

  /** The trailer holds the checksum of the output. */
  ghost predicate Sealed(zlib: bool, goal: Outcome, trailer: seq<Byte>) {
    (zlib ==> |trailer| == 4 && goal.Done? && FromBigEndian(trailer) == Adler.Checksum(1, goal.out)) == true
  }

  lemma NothingBehind(bytes: seq<Byte>)
    ensures BytesToBits(bytes) + [] == BytesToBits(bytes)
  {
  }

  lemma StartsHere(d: Decompressor, bytes: seq<Byte>, more: seq<bool>)
    requires d.Valid() && d.r.inp == [] && d.r.inPos == 0 && d.r.later == BytesToBits(bytes) + more && |more| % 8 == 0
    ensures d.GoesOn(bytes, more)
  {
    assert BytesToBits([]) + d.r.later == d.r.later;
  }

  /** `tinfl_decompress_mem_to_mem`: one call, into a buffer of `outLen` bytes. */
  method MemToMem(bytes: seq<Byte>, outLen: nat, zlib: bool, ghost goal: Outcome, ghost trailer: seq<Byte>)
    returns (res: Option<seq<Byte>>)
    requires StreamOf(zlib, BytesToBits(bytes), goal, trailer, false, outLen)
    ensures res.Some? <==> goal.Done? && |goal.out| <= outLen && Sealed(zlib, goal, trailer)
    ensures res.Some? ==> res.value == goal.out
  {
    var o := new OutBuffer.Buffer(outLen, false);
    var d := new Decompressor(o, zlib, BytesToBits(bytes), goal, trailer);
    NothingBehind(bytes);
    StartsHere(d, bytes, []);
    var status, used, produced := d.Decompress(bytes, outLen, false, []);
    d.SoFar(status);
    res := if status.Done? then Some(produced) else None;
  }

  /** Where a client stands between two calls. */
  ghost predicate Between(d: Decompressor, goal: Outcome, sink: seq<Byte>, left: seq<Byte>, more: seq<bool>)
    reads d, d.r, d.o, d.o.buf, d.inner, d.inner.t0, d.inner.t0.lookUp, d.inner.t0.tree, d.inner.t1,
        d.inner.t1.lookUp, d.inner.t1.tree, d.inner.t2, d.inner.t2.codeSize, d.inner.t2.lookUp, d.inner.t2.tree
  {
    (d.Valid() && d.o.wrapping && d.inner.goal == goal && sink == d.o.hist && d.GoesOn(left, more)) == true
  }

  /** What a call leaves for the next one. */
  lemma LeftOver(d: Decompressor, bytes: seq<Byte>, used: nat, more: seq<bool>)
    requires d.r.inp == bytes && d.r.inPos == used <= |bytes| && d.r.later == more && |more| % 8 == 0
    ensures d.GoesOn(bytes[used..], more)
  {
  }

  /** One call, and the delivery of its output. */
  method Turn(d: Decompressor, sink0: seq<Byte>, left: seq<Byte>, hasMore: bool, ghost more: seq<bool>)
    returns (status: Status, sink: seq<Byte>, used: nat)
    requires Between(d, d.inner.goal, sink0, left, more) && (more != [] ==> hasMore)
    modifies d, d.parts
    ensures used <= |left| && Between(d, d.inner.goal, sink, left[used..], more)
    ensures status.NeedsMoreInput? ==> used == |left| && more != []
    ensures status.HasMoreOutput? ==> d.inner.goal.Done? && |sink0| < |sink| < |d.inner.goal.out|
    ensures status.Done? || status.AdlerMismatch? ==> d.Verdict(status)
    ensures d.StopsBehind(status, 8 * (|left| - used) + |more|)
    ensures sink0 <= sink
  {
    var produced;
    assert |more| % 8 == 0;
    status, used, produced := d.Decompress(left, 0, hasMore, more);
    d.SoFar(status);
    LeftOver(d, left, used, more);
    sink := sink0 + produced;
  }

  /** A decompressor whose output goes through a ring. */
  method Open(zlib: bool, ghost all: seq<bool>, ghost goal: Outcome, ghost trailer: seq<Byte>,
              ghost first: seq<Byte>, ghost more: seq<bool>)
    returns (d: Decompressor)
    requires StreamOf(zlib, all, goal, trailer, true, RING)
    requires all == BytesToBits(first) + more && |more| % 8 == 0
    ensures fresh(d) && fresh(d.parts) && Between(d, goal, [], first, more) && d.zlib == zlib && d.trailer == trailer
  {
    var o := new OutBuffer.Buffer(RING, true);
    d := new Decompressor(o, zlib, all, goal, trailer);
    assert fresh(o) && fresh(o.buf);
    StartsHere(d, first, more);
  }

  /** How many bits of the input do not belong to the stream, nor to its checksum. */
  ghost function Surplus(zlib: bool, goal: Outcome): int
    requires goal.Done?
  {
    if zlib then 8 * (|goal.rest| / 8) - 32 else |goal.rest|
  }

  lemma SurplusBehind(rest: seq<bool>, zlib: bool, goal: Outcome)
    requires StandsBehind(rest, zlib, goal)
    ensures Surplus(zlib, goal) == |rest|
  {
  }

  /**
   `tinfl_decompress_mem_to_callback`: all input at once, output through a ring. It also
   says how much of the input it has used.
   */
  method MemToCallback(bytes: seq<Byte>, zlib: bool, ghost goal: Outcome, ghost trailer: seq<Byte>)
    returns (sink: seq<Byte>, ok: bool, inBufOfs: nat)
    requires StreamOf(zlib, BytesToBits(bytes), goal, trailer, true, RING)
    ensures goal.Done? && sink == goal.out && (ok <==> Sealed(zlib, goal, trailer))
    ensures inBufOfs <= |bytes|
    ensures 8 * (|bytes| - inBufOfs) <= Surplus(zlib, goal) < 8 * (|bytes| - inBufOfs) + 64
  {
    NothingBehind(bytes);
    var d := Open(zlib, BytesToBits(bytes), goal, trailer, bytes, []);
    inBufOfs := 0;
    sink := [];
    assert bytes[0..] == bytes;
    while true
      invariant fresh(d) && fresh(d.parts) && inBufOfs <= |bytes| && Between(d, goal, sink, bytes[inBufOfs..], [])
      decreases if goal.Done? then |goal.out| - |sink| else -1
    {
      var status, used;
      status, sink, used := Turn(d, sink, bytes[inBufOfs..], false, []);
      inBufOfs := inBufOfs + used;
      if !status.HasMoreOutput? {
        SurplusBehind(d.r.rest, zlib, goal);
        ok := status.Done?;
        return;
      }
    }
  }

  // ---- Input in pieces

  function Flat(chunks: seq<seq<Byte>>): seq<Byte> {
    if chunks == [] then [] else chunks[0] + Flat(chunks[1..])
  }

  /** The input of later calls. */
  ghost function Later(chunks: seq<seq<Byte>>, i: nat): (bits: seq<bool>)
    requires i <= |chunks|
    ensures |bits| % 8 == 0
  {
    BytesToBits(Flat(chunks[i..]))
  }

  lemma NextChunk(chunks: seq<seq<Byte>>, i: nat)
    requires i < |chunks|
    ensures Later(chunks, i) == BytesToBits(chunks[i]) + Later(chunks, i + 1)
  {
    assert chunks[i..][1..] == chunks[i + 1..];
    BytesToBitsConcat(chunks[i], Flat(chunks[i + 1..]));
  }

  lemma NextGoesOn(d: Decompressor, chunks: seq<seq<Byte>>, i: nat)
    requires i < |chunks| && d.GoesOn([], Later(chunks, i))
    ensures d.GoesOn(chunks[i], Later(chunks, i + 1))
  {
    NextChunk(chunks, i);
  }

  /** The input in pieces of any size, each given to as many calls as it takes, the output through a ring. */
  method InflateChunks(chunks: seq<seq<Byte>>, zlib: bool, ghost goal: Outcome, ghost trailer: seq<Byte>)
    returns (sink: seq<Byte>, ok: bool)
    requires StreamOf(zlib, BytesToBits(Flat(chunks)), goal, trailer, true, RING)
    ensures goal.Done? && sink == goal.out && (ok <==> Sealed(zlib, goal, trailer))
  {
    assert chunks[0..] == chunks;
    var d := Open(zlib, BytesToBits(Flat(chunks)), goal, trailer, [], Later(chunks, 0));
    var i: nat := 0;
    var left: seq<Byte> := [];
    sink := [];
    while true
      invariant fresh(d) && fresh(d.parts) && i <= |chunks| && Between(d, goal, sink, left, Later(chunks, i))
      decreases |chunks| - i, if goal.Done? then |goal.out| - |sink| else -1
    {
      var status, used;
      status, sink, used := Turn(d, sink, left, i < |chunks|, Later(chunks, i));
      left := left[used..];
      if status.NeedsMoreInput? {
        NextGoesOn(d, chunks, i);
        left, i := chunks[i], i + 1;
      } else if !status.HasMoreOutput? {
        ok := status.Done?;
        return;
      }
    }
  }

  // ---- The compressor's output is such a stream

  lemma BigEndianBack(a: nat)
    requires a < 0x1_0000_0000
    ensures FromBigEndian(FlushBlock.BigEndian(a)) == a
  {
    var t := FlushBlock.BigEndian(a);
    OneMoreByte([], t[0]);
    OneMoreByte([t[0]], t[1]);
    OneMoreByte([t[0], t[1]], t[2]);
    OneMoreByte([t[0], t[1], t[2]], t[3]);
    assert [] + [t[0]] == [t[0]] && [t[0]] + [t[1]] == [t[0], t[1]];
    assert [t[0], t[1]] + [t[2]] == [t[0], t[1], t[2]] && t == [t[0], t[1], t[2]] + [t[3]];
    ByteByByte(a);
  }

  lemma OneMoreByte(s: seq<Byte>, b: Byte)
    ensures FromBigEndian(s + [b]) == FromBigEndian(s) * 256 + b
  {
    assert (s + [b])[..|s|] == s;
  }

  lemma ByteByByte(a: nat)
    requires a < 0x1_0000_0000
    ensures ((a / 0x100_0000 * 256 + a / 0x1_0000 % 256) * 256 + a / 0x100 % 256) * 256 + a % 256 == a
  {
  }

  lemma FirstByte(bytes: seq<Byte>)
    requires bytes != []
    ensures |BytesToBits(bytes)| >= 8 && Val(BytesToBits(bytes), 8) == bytes[0]
    ensures BytesToBits(bytes)[8..] == BytesToBits(bytes[1..])
  {
    Pow2Values();
    FromToBits(bytes[0], 8);
    assert BytesToBits(bytes) == ToBits(bytes[0], 8) + BytesToBits(bytes[1..]);
  }

  /** The two header bytes, which pass the decompressor's checks, and what follows them. */
  lemma HeaderAhead(sink: seq<Byte>, wrapping: bool, ring: nat)
    requires |sink| >= 2 && sink[..2] == FlushBlock.ZLIB_HEADER && (wrapping ==> ring >= RING)
    ensures var all := BytesToBits(sink);
            && |all| >= 16 && HeaderOk(Val(all, 8), Val(all[8..], 8), wrapping, ring)
            && all[16..] == BytesToBits(sink[2..])
  {
    FirstByte(sink);
    FirstByte(sink[1..]);
    assert sink[1..][1..] == sink[2..];
    assert BytesToBits(sink)[8..][8..] == BytesToBits(sink)[16..];
    assert sink[0] == sink[..2][0] && sink[1] == sink[..2][1];
    OurHeaderOk(wrapping, ring);
  }

  lemma OurHeaderOk(wrapping: bool, ring: nat)
    requires wrapping ==> ring >= RING
    ensures HeaderOk(FlushBlock.ZLIB_HEADER[0], FlushBlock.ZLIB_HEADER[1], wrapping, ring)
  {
    Pow2Values();
    Pow2Add(8, 7);
  }

  /** The trailer behind fewer than eight bits of padding. */
  lemma TrailerBehind(pad: seq<bool>, trailer: seq<Byte>)
    requires |pad| < 8 && |trailer| == 4
    ensures var rest := pad + BytesToBits(trailer); TrailerAhead(rest[|rest| % 8..], trailer, 0)
  {
    assert trailer[0..] == trailer;
    assert (pad + BytesToBits(trailer))[|pad|..] == BytesToBits(trailer);
  }

  /** What the compressor promises of its output is what the decompressor asks of its input. */
  lemma OutputIsStream(sink: seq<Byte>, zlib: bool, data: seq<Byte>, wrapping: bool, ring: nat)
    returns (goal: Outcome, trailer: seq<Byte>)
    requires Deflate.Decompresses(sink, zlib, data) && (wrapping ==> ring >= RING)
    ensures StreamOf(zlib, BytesToBits(sink), goal, trailer, wrapping, ring)
    ensures goal.Done? && goal.out == data && Sealed(zlib, goal, trailer) && Surplus(zlib, goal) < 8
  {
    if zlib {
      goal, trailer := ZlibIsStream(sink, data, wrapping, ring);
    } else {
      var pad :| |pad| < 8 && Deflate.Stops(sink, data, pad);
      assert sink + [] == sink;
      goal, trailer := Inflate(sink), [];
      StreamStart(sink, goal);
    }
  }

  lemma ZlibIsStream(sink: seq<Byte>, data: seq<Byte>, wrapping: bool, ring: nat)
    returns (goal: Outcome, trailer: seq<Byte>)
    requires Deflate.Decompresses(sink, true, data) && (wrapping ==> ring >= RING)
    ensures StreamOf(true, BytesToBits(sink), goal, trailer, wrapping, ring)
    ensures goal.Done? && goal.out == data && Sealed(true, goal, trailer) && Surplus(true, goal) < 8
  {
    var body := sink[2..|sink| - 4];
    trailer := sink[|sink| - 4..];
    var pad :| |pad| < 8 && Deflate.Stops(body, data, pad);
    assert body + trailer == sink[2..];
    goal := Inflate(body + trailer);
    HeaderAhead(sink, wrapping, ring);
    StreamStart(sink[2..], goal);
    TrailerBehind(pad, trailer);
    BigEndianBack(Adler.Checksum(1, data));
  }

  // ---- Decompressing undoes compressing

  /** One call to compress, one call to decompress. */
  method ThereAndBack(buf: seq<Byte>, flags: FlushBlock.Flags, outLen: nat) returns (res: Option<seq<Byte>>)
    ensures res == if |buf| <= outLen then Some(buf) else None
  {
    var d := Deflate.CompressToOutput(buf, flags);
    var sink := d.c.out.sink;
    ghost var goal, trailer := OutputIsStream(sink, flags.zlibHeader, buf, false, outLen);
    res := MemToMem(sink, outLen, flags.zlibHeader, goal, trailer);
  }

  /** The same with the output of decompression going through a ring; all of the compressed data is used. */
  method ThereAndBackByCallback(buf: seq<Byte>, flags: FlushBlock.Flags)
    returns (back: seq<Byte>, ok: bool, unused: nat)
    ensures ok && back == buf && unused == 0
  {
    var used;
    var d := Deflate.CompressToOutput(buf, flags);
    var sink := d.c.out.sink;
    ghost var goal, trailer := OutputIsStream(sink, flags.zlibHeader, buf, true, RING);
    back, ok, used := MemToCallback(sink, flags.zlibHeader, goal, trailer);
    unused := |sink| - used;
  }

  /** A piece of input and what to do after it. */
  datatype Piece = Piece(bytes: seq<Byte>, mode: FlushBlock.FlushMode)

  /** All input of a sequence of calls. */
  function Input(pieces: seq<Piece>): seq<Byte> {
    if pieces == [] then [] else Input(pieces[..|pieces| - 1]) + pieces[|pieces| - 1].bytes
  }

  /** Any number of calls, flushing or not, and a last one that finishes. */
  method CompressPieces(pieces: seq<Piece>, flags: FlushBlock.Flags) returns (sink: seq<Byte>)
    requires forall i :: 0 <= i < |pieces| ==> !pieces[i].mode.Finish?
    ensures Deflate.Decompresses(sink, flags.zlibHeader, Input(pieces))
  {
    var d := Deflate.NewDeflater(flags);
    for i := 0 to |pieces|
      invariant Accepting(d, Input(pieces[..i]))
    {
      assert pieces[..i + 1][..i] == pieces[..i];
      CompressPiece(d, pieces[i], Input(pieces[..i]));
    }
    assert pieces[..|pieces|] == pieces;
    sink := FinishPieces(d, Input(pieces));
  }

  /** More input is welcome. */
  ghost predicate Accepting(d: Deflate.Deflater, input: seq<Byte>)
    reads d, d.c, d.c.win, d.c.win.dict, d.c.win.next, d.c.win.hash, d.c.out, d.c.out.b.w, d.c.out.b.w.out
    reads d.c.out.b.lz, d.c.out.b.lz.buf, d.c.out.b.lz.litCount, d.c.out.b.lz.distCount
  {
    (d.Valid() && d.status.Okay? && !d.wantsToFinish && d.input == input) == true
  }

  method CompressPiece(d: Deflate.Deflater, piece: Piece, ghost input: seq<Byte>)
    requires Accepting(d, input) && !piece.mode.Finish?
    modifies d, d.c, d.c.win, d.c.win.dict, d.c.win.next, d.c.win.hash, d.c.out, d.c.out.b.parts
    ensures Accepting(d, input + piece.bytes) && (piece.mode.FullFlush? ==> d.AtRestart())
    ensures d.c.since == old(d.c.since) && d.c.mark == old(d.c.mark)
  {
    var r := d.Compress(piece.bytes, piece.mode);
  }

  method FinishPieces(d: Deflate.Deflater, ghost input: seq<Byte>) returns (sink: seq<Byte>)
    requires Accepting(d, input)
    modifies d, d.c, d.c.win, d.c.win.dict, d.c.win.next, d.c.win.hash, d.c.out, d.c.out.b.parts
    ensures Deflate.Decompresses(sink, d.c.flags.zlibHeader, input)
    ensures old(d.c.since) <= |input| && Deflate.InflatesBehind(sink, d.c.flags,
                Deflate.RestartAt(d.c.flags, old(d.c.mark)), input[old(d.c.since)..])
  {
    var r := d.Compress([], FlushBlock.FlushMode.Finish);
    assert input + [] == input;
    sink := d.c.out.sink;
  }

  // ---- Starting again behind a full flush

  lemma {:induction false} InputOfBoth(a: seq<Piece>, b: seq<Piece>)
    ensures Input(a + b) == Input(a) + Input(b)
    decreases |b|
  {
    if b == [] {
      assert a + b == a;
    } else {
      var front := b[..|b| - 1];
      assert (a + b)[..|a + b| - 1] == a + front;
      InputOfBoth(a, front);
    }
  }

  /** Compresses the pieces from `i` up to `n`. */
  method CompressSome(d: Deflate.Deflater, pieces: seq<Piece>, i: nat, n: nat)
    requires i <= n <= |pieces| && Accepting(d, Input(pieces[..i]))
    requires forall k :: 0 <= k < |pieces| ==> !pieces[k].mode.Finish?
    modifies d, d.c, d.c.win, d.c.win.dict, d.c.win.next, d.c.win.hash, d.c.out, d.c.out.b.parts
    ensures Accepting(d, Input(pieces[..n]))
    ensures i < n && pieces[n - 1].mode.FullFlush? ==> d.AtRestart()
    ensures d.c.since == old(d.c.since) && d.c.mark == old(d.c.mark)
  {
    for j := i to n
      invariant Accepting(d, Input(pieces[..j])) && d.c.since == old(d.c.since) && d.c.mark == old(d.c.mark)
      invariant i < j && pieces[j - 1].mode.FullFlush? ==> d.AtRestart()
    {
      assert pieces[..j + 1][..j] == pieces[..j];
      CompressPiece(d, pieces[j], Input(pieces[..j]));
    }
  }

  /** The output behind a full flush is a DEFLATE stream for the input behind it. */
  method CompressFrom(pieces: seq<Piece>, i: nat, flags: FlushBlock.Flags) returns (sink: seq<Byte>, from: nat)
    requires 1 <= i <= |pieces| && pieces[i - 1].mode.FullFlush?
    requires forall k :: 0 <= k < |pieces| ==> !pieces[k].mode.Finish?
    ensures Deflate.Decompresses(sink, flags.zlibHeader, Input(pieces))
    ensures Deflate.InflatesBehind(sink, flags, from, Input(pieces[i..]))
  {
    var d := Deflate.NewDeflater(flags);
    CompressSome(d, pieces, 0, i);
    d.MarkRestart();
    from := |d.c.out.sink|;
    CompressSome(d, pieces, i, |pieces|);
    assert pieces[..|pieces|] == pieces && pieces[..i] + pieces[i..] == pieces;
    InputOfBoth(pieces[..i], pieces[i..]);
    sink := FinishPieces(d, Input(pieces));
  }

  /** What stands behind a restart can be given to the decompressor as it is. */
  lemma RestIsStream(sink: seq<Byte>, flags: FlushBlock.Flags, from: nat, data: seq<Byte>) returns (goal: Outcome)
    requires Deflate.InflatesBehind(sink, flags, from, data)
    ensures from <= |sink| && StreamOf(false, BytesToBits(sink[from..]), goal, [], true, RING)
    ensures goal.Done? && goal.out == data
  {
    var m := |sink| - Deflate.TrailerSize(flags);
    var body, t := sink[from..m], sink[m..];
    var pad :| |pad| < 8 && Deflate.Stops(body, data, pad);
    assert body + t == sink[from..];
    goal := Inflate(body + t);
    StreamStart(sink[from..], goal);
  }

  /** After a full flush decompression can start: it gives the later input and needs nothing of the earlier. */
  method BackFromRestart(pieces: seq<Piece>, i: nat, flags: FlushBlock.Flags) returns (back: seq<Byte>, ok: bool)
    requires 1 <= i <= |pieces| && pieces[i - 1].mode.FullFlush?
    requires forall k :: 0 <= k < |pieces| ==> !pieces[k].mode.Finish?
    ensures ok && back == Input(pieces[i..])
  {
    var sink, from := CompressFrom(pieces, i, flags);
    ghost var goal := RestIsStream(sink, flags, from, Input(pieces[i..]));
    var used;
    back, ok, used := MemToCallback(sink[from..], false, goal, []);
  }

  /** Cuts bytes into pieces of the given sizes, as far as they go, and the rest. */
  function Cut(bytes: seq<Byte>, sizes: seq<nat>): (chunks: seq<seq<Byte>>)
    ensures Flat(chunks) == bytes
  {
    if sizes == [] || sizes[0] > |bytes| then [bytes]
    else [bytes[..sizes[0]]] + Cut(bytes[sizes[0]..], sizes[1..])
  }

  /** However the data is divided into calls, on either side, it comes back as it was. */
  method PiecesThereAndBack(pieces: seq<Piece>, flags: FlushBlock.Flags, sizes: seq<nat>)
    returns (back: seq<Byte>, ok: bool)
    requires forall i :: 0 <= i < |pieces| ==> !pieces[i].mode.Finish?
    ensures ok && back == Input(pieces)
  {
    var sink := CompressPieces(pieces, flags);
    var chunks := Cut(sink, sizes);
    ghost var goal, trailer := OutputIsStream(sink, flags.zlibHeader, Input(pieces), true, RING);
    back, ok := InflateChunks(chunks, flags.zlibHeader, goal, trailer);
  }
}
