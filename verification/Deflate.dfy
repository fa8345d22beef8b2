/**
 The calls an application makes (`tdefl_init`, `tdefl_compress`): any division of
 the input into calls, any flush modes, and what the output then decodes to.
 */
module Deflate {
  import opened Bits
  import opened Tokens
  import opened InflateSpec
  import opened BlockBits
  import opened Stream
  import opened FlushBlock
  import opened Restart
  import C = Compressor
  import Adler
  import BlockWriter
  import BitWriter
  import HuffTable
  import KnownStreams
  import LzBuffer
  import MinRedundancy
  import W = Window

  datatype Status = BadParam | Okay | Done

  // ---- What a finished output is

  /** Decoding `body` gives `data` and stops before its last few bits `pad`, whatever bytes come behind. */
  ghost predicate Stops(body: seq<Byte>, data: seq<Byte>, pad: seq<bool>) {
    forall more: seq<Byte> {:trigger Inflate(body + more)} ::
        Inflate(body + more) == InflateSpec.Done(data, pad + BytesToBits(more))
  }

  /** The bytes `body` are a whole DEFLATE stream for `data`; fewer than eight padding bits are left. */
  ghost predicate Inflates(body: seq<Byte>, data: seq<Byte>) {
    exists pad :: |pad| < 8 && Stops(body, data, pad)
  }

  /** The output is a zlib stream (RFC 1950) or a bare DEFLATE stream for `data`. */
  ghost predicate Decompresses(sink: seq<Byte>, zlib: bool, data: seq<Byte>) {
    if zlib then
      && |sink| >= 6 && sink[..2] == [0x78, 0x01]
      && sink[|sink| - 4..] == BigEndian(Adler.Checksum(1, data))
      && Inflates(sink[2..|sink| - 4], data)
    else Inflates(sink, data)
  }

  /**
   The output so far is a header and whole blocks that stand for `data`; more blocks may
   follow. The last four bytes are those of an empty stored block.
   */
  ghost predicate SyncPoint(sink: seq<Byte>, flags: Flags, data: seq<Byte>) {
    && (exists bits :: SinkHolds(sink, [], StreamHeader(flags, 1), bits) && Reads(bits, data))
    && |sink| >= 4 && sink[|sink| - 4..] == [0x00, 0x00, 0xFF, 0xFF]
  }

  lemma MarkedInBytes(sink: seq<Byte>, header: seq<bool>, bits: seq<bool>)
    requires SinkHolds(sink, [], header, bits) && Marked(bits)
    ensures |sink| >= 4 && sink[|sink| - 4..] == [0x00, 0x00, 0xFF, 0xFF]
  {
    var s :| MarkedBehind(bits, s);
    var front := header + s + BlockStart(false, 0) + Padding(|s| + 3);
    assert BytesToBits(sink) + [] == BytesToBits(sink);
    MarkerBits();
    StoredIs(header, s, |s|, [], LengthHead(0));
    CutEnd(sink, front, [0x00, 0x00, 0xFF, 0xFF]);
  }

  lemma StoredIs(header: seq<bool>, s: seq<bool>, at: nat, bs: seq<Byte>, tail: seq<bool>)
    requires bs == [] && tail == LengthHead(|bs|)
    ensures header + (s + StoredBits(false, at, bs)) == header + s + BlockStart(false, 0) + Padding(at + 3) + tail
  {
    assert BytesToBits(bs) == [];
    PartsJoin(header, s, BlockStart(false, 0), Padding(at + 3), tail);
  }

  lemma PartsJoin(h: seq<bool>, s: seq<bool>, a: seq<bool>, b: seq<bool>, c: seq<bool>)
    ensures h + (s + (a + b + c + [])) == h + s + a + b + c
  {
  }

  lemma MarkerBits()
    ensures BytesToBits([0x00, 0x00, 0xFF, 0xFF]) == LengthHead(0)
  {
    KnownStreams.HeadBits(0, [0x00, 0x00, 0xFF, 0xFF]);
  }

  lemma StreamInflates(body: seq<Byte>, bits: seq<bool>, data: seq<Byte>)
    requires BytesToBits(body) == bits + Padding(|bits|) && Ends(bits, data)
    ensures Inflates(body, data)
  {
    var pad := Padding(|bits|);
    forall more: seq<Byte> ensures Inflate(body + more) == InflateSpec.Done(data, pad + BytesToBits(more)) {
      InflatesWith(body, bits, data, more);
    }
    assert Stops(body, data, pad);
  }

  lemma InflatesWith(body: seq<Byte>, bits: seq<bool>, data: seq<Byte>, more: seq<Byte>)
    requires BytesToBits(body) == bits + Padding(|bits|) && Ends(bits, data)
    ensures Inflate(body + more) == InflateSpec.Done(data, Padding(|bits|) + BytesToBits(more))
  {
    BytesToBitsConcat(body, more);
    Regroup(bits, Padding(|bits|), BytesToBits(more));
    var rest := Padding(|bits|) + BytesToBits(more);
    WholeWith(|body|, |bits|, |Padding(|bits|)|, |more|);
    assert Whole(0, bits, rest);
    assert Block(bits + rest, []) == InflateSpec.Done(data, rest);
  }

  lemma WholeWith(a: nat, b: nat, p: nat, m: nat)
    requires 8 * a == b + p
    ensures (b + (p + 8 * m)) % 8 == 0
  {
  }

  /** Cutting the bytes of a stream where its bits are cut. */
  lemma CutEnd(u: seq<Byte>, b: seq<bool>, t: seq<Byte>)
    requires BytesToBits(u) == b + BytesToBits(t)
    ensures |t| <= |u| && BytesToBits(u[..|u| - |t|]) == b && u[|u| - |t|..] == t
  {
    assert 8 * |u| == |b| + 8 * |t|;
    var m := |u| - |t|;
    JoinHalves(u, m);
    assert |BytesToBits(u[..m])| == |b|;
    SamePrefix(BytesToBits(u[..m]), BytesToBits(u[m..]), b, BytesToBits(t));
    BytesToBitsInjective(u[m..], t);
  }

  lemma JoinHalves(u: seq<Byte>, m: nat)
    requires m <= |u|
    ensures BytesToBits(u) == BytesToBits(u[..m]) + BytesToBits(u[m..])
  {
    BytesToBitsConcat(u[..m], u[m..]);
    assert u[..m] + u[m..] == u;
  }

  lemma SamePrefix<T>(a: seq<T>, b: seq<T>, c: seq<T>, d: seq<T>)
    requires a + b == c + d && |a| == |c|
    ensures a == c && b == d
  {
    assert a == (a + b)[..|a|] == (c + d)[..|c|] == c;
    assert b == (a + b)[|a|..] == (c + d)[|c|..] == d;
  }

  lemma ZlibDecompresses(sink: seq<Byte>, bits: seq<bool>, data: seq<Byte>, t: seq<Byte>)
    requires Ends(bits, data) && t == BigEndian(Adler.Checksum(1, data))
    requires BytesToBits(sink) == BytesToBits(ZLIB_HEADER) + ((bits + Padding(|bits|)) + BytesToBits(t))
    ensures Decompresses(sink, true, data)
  {
    var b := bits + Padding(|bits|);
    HeaderCut(sink, b + BytesToBits(t));
    var u := sink[2..];
    CutEnd(u, b, t);
    assert u[..|u| - 4] == sink[2..|sink| - 4] && u[|u| - 4..] == sink[|sink| - 4..];
    StreamInflates(u[..|u| - 4], bits, data);
  }

  lemma RawDecompresses(sink: seq<Byte>, bits: seq<bool>, data: seq<Byte>)
    requires Ends(bits, data) && BytesToBits(sink) == bits + Padding(|bits|)
    ensures Decompresses(sink, false, data)
  {
    StreamInflates(sink, bits, data);
  }

  /** What a finished output looks like byte by byte. */
  lemma FinishedDecompresses(sink: seq<Byte>, flags: Flags, bits: seq<bool>, data: seq<Byte>, adler: nat)
    requires adler < 0x1_0000_0000 && Ends(bits, data)
    requires SinkHolds(sink, [], StreamHeader(flags, 1), bits + (Padding(|bits|) + BytesToBits(Trailer(flags, adler))))
    requires flags.zlibHeader ==> adler == Adler.Checksum(1, data)
    ensures Decompresses(sink, flags.zlibHeader, data)
  {
    var b, p, t := BytesToBits(sink), Padding(|bits|), BytesToBits(Trailer(flags, adler));
    assert b + [] == b;
    if flags.zlibHeader {
      Regroup(bits, p, t);
      ZlibDecompresses(sink, bits, data, Trailer(flags, adler));
    } else {
      NoEnds(b, bits, p);
      RawDecompresses(sink, bits, data);
    }
  }

  lemma NoEnds(b: seq<bool>, bits: seq<bool>, p: seq<bool>)
    requires b == [] + (bits + (p + []))
    ensures b == bits + p
  {
  }

  lemma HeaderCut(sink: seq<Byte>, rest: seq<bool>)
    requires BytesToBits(sink) == BytesToBits(ZLIB_HEADER) + rest
    ensures |sink| >= 2 && sink[..2] == ZLIB_HEADER && BytesToBits(sink[2..]) == rest
  {
    JoinHalves(sink, 2);
    SamePrefix(BytesToBits(sink[..2]), BytesToBits(sink[2..]), BytesToBits(ZLIB_HEADER), rest);
    BytesToBitsInjective(sink[..2], ZLIB_HEADER);
  }
  // ---- What stands behind a full flush

  /** Where in the output the bits from `mark` on start. */
  ghost function RestartAt(flags: Flags, mark: nat): nat {
    (|StreamHeader(flags, 1)| + mark) / 8
  }

  ghost function TrailerSize(flags: Flags): nat {
    if flags.zlibHeader then 4 else 0
  }

  /** From a restart on, and up to the checksum, a finished output is a DEFLATE stream for `data`. */
  ghost predicate InflatesBehind(sink: seq<Byte>, flags: Flags, at: nat, data: seq<Byte>) {
    (at + TrailerSize(flags) <= |sink| && Inflates(sink[at..|sink| - TrailerSize(flags)], data)) == true
  }

  lemma RestartInBytes(sink: seq<Byte>, flags: Flags, bits: seq<bool>, mark: nat, data: seq<Byte>, adler: nat)
    requires adler < 0x1_0000_0000 && mark <= |bits| && mark % 8 == 0 && Ends(bits[mark..], data)
    requires SinkHolds(sink, [], StreamHeader(flags, 1), bits + (Padding(|bits|) + BytesToBits(Trailer(flags, adler))))
    ensures InflatesBehind(sink, flags, RestartAt(flags, mark), data)
  {
    var m, k := TrailerSize(flags), RestartAt(flags, mark);
    RestartAtByte(flags, mark, adler);
    var body := RestartCut(sink, StreamHeader(flags, 1), bits, mark, Trailer(flags, adler), k, data);
    IsBehind(sink, flags, k, m, data, body);
  }

  lemma RestartCut(sink: seq<Byte>, header: seq<bool>, bits: seq<bool>, mark: nat, t: seq<Byte>, k: nat,
                   data: seq<Byte>) returns (body: seq<Byte>)
    requires mark <= |bits| && mark % 8 == 0 && 8 * k == |header| + mark && Ends(bits[mark..], data)
    requires SinkHolds(sink, [], header, bits + (Padding(|bits|) + BytesToBits(t)))
    ensures k + |t| <= |sink| && body == sink[k..|sink| - |t|] && Inflates(body, data)
  {
    BitsBehind(sink, header, bits, mark, t, k);
    body := InflatesUpTo(sink[k..], bits[mark..], data, t);
    Between(sink, k, |t|);
  }

  lemma RestartAtByte(flags: Flags, mark: nat, adler: nat)
    requires adler < 0x1_0000_0000 && mark % 8 == 0
    ensures 8 * RestartAt(flags, mark) == |StreamHeader(flags, 1)| + mark
        && |Trailer(flags, adler)| == TrailerSize(flags)
  {
  }

  lemma IsBehind(sink: seq<Byte>, flags: Flags, at: nat, m: nat, data: seq<Byte>, body: seq<Byte>)
    requires m == TrailerSize(flags) && at + m <= |sink| && body == sink[at..|sink| - m] && Inflates(body, data)
    ensures InflatesBehind(sink, flags, at, data)
  {
  }

  lemma BitsBehind(sink: seq<Byte>, header: seq<bool>, bits: seq<bool>, mark: nat, t: seq<Byte>, k: nat)
    requires mark <= |bits| && mark % 8 == 0 && 8 * k == |header| + mark
    requires SinkHolds(sink, [], header, bits + (Padding(|bits|) + BytesToBits(t)))
    ensures k <= |sink|
    ensures BytesToBits(sink[k..]) == (bits[mark..] + Padding(|bits[mark..]|)) + BytesToBits(t)
  {
    var tail := bits[mark..];
    SuffixPhase(|bits|, mark);
    SamePadding(|bits|, |tail|);
    RestartJoins(BytesToBits(sink), header, bits, mark, Padding(|tail|), BytesToBits(t));
    FrontCut(sink, header + bits[..mark], (tail + Padding(|tail|)) + BytesToBits(t), k);
  }

  lemma InflatesUpTo(u: seq<Byte>, bits: seq<bool>, data: seq<Byte>, t: seq<Byte>) returns (body: seq<Byte>)
    requires BytesToBits(u) == (bits + Padding(|bits|)) + BytesToBits(t) && Ends(bits, data)
    ensures |t| <= |u| && body == u[..|u| - |t|] && Inflates(body, data)
  {
    CutEnd(u, bits + Padding(|bits|), t);
    body := u[..|u| - |t|];
    StreamInflates(body, bits, data);
  }

  lemma Between<T>(s: seq<T>, k: nat, m: nat)
    requires k + m <= |s|
    ensures s[k..][..|s| - k - m] == s[k..|s| - m]
  {
  }

  lemma RestartJoins(s: seq<bool>, header: seq<bool>, bits: seq<bool>, mark: nat, pad: seq<bool>, t: seq<bool>)
    requires s + [] == header + (bits + (pad + t)) && mark <= |bits|
    ensures s == (header + bits[..mark]) + ((bits[mark..] + pad) + t)
  {
    assert bits == bits[..mark] + bits[mark..] && s + [] == s;
  }

  lemma FrontCut(sink: seq<Byte>, front: seq<bool>, rest: seq<bool>, k: nat)
    requires BytesToBits(sink) == front + rest && |front| == 8 * k
    ensures k <= |sink| && BytesToBits(sink[k..]) == rest
  {
    JoinHalves(sink, k);
    SamePrefix(BytesToBits(sink[..k]), BytesToBits(sink[k..]), front, rest);
  }

  // ---- The compressor as an application sees it

  /** Output written, tokens recorded since, how far they reach, and the current position. */
  datatype Progress = Progress(done: seq<Byte>, ts: seq<Token>, n: nat, lp: nat)

  class Deflater {
    const c: C.Compressor
    var status: Status
    var wantsToFinish: bool
    var finished: bool
    // All input so far, and how far it has come.
    ghost var input: seq<Byte>
    ghost var p: Progress

    constructor (c: C.Compressor)
      requires c.Tied() && c.Inv([], [], [], 0, 0, 8) && c.Since([], [], 0) && c.adler == 1
      ensures this.c == c && Valid() && status.Okay? && !wantsToFinish && input == []
    {
      this.c, status, wantsToFinish, finished := c, Okay, false, false;
      input, p := [], Progress([], [], 0, 0);
      new;
      NothingYet();
    }

    lemma NothingYet()
      requires c.Tied() && c.Inv([], [], [], 0, 0, 8) && c.Since([], [], 0) && c.adler == 1
      requires input == [] && p == Progress([], [], 0, 0)
      requires Wired() && status.Okay? && !finished
      ensures Valid()
    {
      assert Adler.Checksum(1, []) == 1;
    }

    ghost predicate Wired() {
      (c.Tied() && this as object !in c.out.b.parts && this as object != c as object
          && this as object != c.out as object
       && this as object != c.win as object && this as object != c.win.dict as object) == true
    }

    /** Whether the checksum is kept. */
    predicate Checksums() {
      c.flags.zlibHeader || c.flags.computeAdler
    }

    /** Compression can go on. */
    ghost predicate Going()
      reads this, c, c.win, c.win.dict, c.win.next, c.win.hash, c.out, c.out.b.w, c.out.b.w.out, c.out.b.lz,
          c.out.b.lz.buf,
          c.out.b.lz.litCount, c.out.b.lz.distCount
    {
      (&& c.Inv(input, p.done, p.ts, p.n, p.lp, 8) && p.lp <= |input| < p.lp + MAX_MATCH && SumIs(input)
       && c.Since(p.done, p.ts, p.n)) == true
    }

    /** The checksum, if it is kept, is that of `data`. */
    ghost predicate SumIs(data: seq<Byte>)
      reads c
    {
      (Checksums() ==> c.adler < 0x1_0000_0000 && c.adler == Adler.Checksum(1, data)) == true
    }

    /** Compression is complete: the output decompresses to the input. */
    ghost predicate Complete()
      reads this, c.out
    {
      Decompresses(c.out.sink, c.flags.zlibHeader, input) == true
    }

    /** What was written since the last restart decompresses by itself to the input since then. */
    ghost predicate Restarts()
      reads this, c, c.out
    {
      (c.since <= |input| && InflatesBehind(c.out.sink, c.flags, RestartAt(c.flags, c.mark), input[c.since..])) == true
    }

    /** Nothing is pending, nothing recorded, and nothing remembered: a full flush has just been done. */
    ghost predicate AtRestart()
      reads this, c, c.out, c.out.b.w, c.win
    {
      (p == Progress(input, [], |input|, |input|) && c.AtByte() && c.win.base == |input|) == true
    }

    /**
     What a call gives: at the end a complete output, after a sync or full flush all of the
     input so far, and after a full flush a place to start from.
     */
    ghost predicate Delivered(mode: FlushMode)
      reads this, c, c.out, c.out.b.w, c.win
    {
      (&& (mode.Finish? ==> Complete() && Restarts())
       && (mode.SyncFlush? || mode.FullFlush? ==> Flushed())
       && (mode.FullFlush? ==> AtRestart())) == true
    }

    ghost predicate Valid()
      reads this, c, c.win, c.win.dict, c.win.next, c.win.hash, c.out, c.out.b.w, c.out.b.w.out, c.out.b.lz,
          c.out.b.lz.buf,
          c.out.b.lz.litCount, c.out.b.lz.distCount
    {
      (&& Wired() && (status.Okay? ==> Going() && !finished) && (status.Done? ==> finished)
       && (finished ==> Complete() && Restarts())) == true
    }

    /** Takes a piece of input in and keeps the checksum. */
    method TakeIn(src: seq<Byte>, flushing: bool, ghost input0: seq<Byte>, ghost done0: seq<Byte>,
                  ghost ts0: seq<Token>, ghost n0: nat, ghost lp0: nat)
      returns (ghost done': seq<Byte>, ghost ts': seq<Token>, ghost n': nat, ghost lp': nat)
      requires c.Tied() && c.Inv(input0, done0, ts0, n0, lp0, 8) && |input0| < lp0 + MAX_MATCH
      requires SumIs(input0) && c.Since(done0, ts0, n0)
      modifies c, c.win, c.win.dict, c.win.next, c.win.hash, c.out, c.out.b.parts
      ensures c.Inv(input0 + src, done', ts', n', lp', 8) && lp' <= |input0 + src|
          && (flushing ==> lp' == |input0 + src|)
      ensures SumIs(input0 + src) && |input0 + src| < lp' + MAX_MATCH && c.Since(done', ts', n')
      ensures c.since == old(c.since) && c.mark == old(c.mark)
    {
      c.OwnFields();
      done', ts', n', lp' := c.CompressNormal(src, flushing, input0, done0, ts0, n0, lp0);
      KeepSum(src, input0, done', ts', n', lp');
    }

    method KeepSum(src: seq<Byte>, ghost input0: seq<Byte>, ghost done: seq<Byte>, ghost ts: seq<Token>,
                   ghost n: nat, ghost lp: nat)
      requires c.Tied() && c.Inv(input0 + src, done, ts, n, lp, 8) && SumIs(input0) && c.Since(done, ts, n)
      modifies c`adler
      ensures c.Inv(input0 + src, done, ts, n, lp, 8) && SumIs(input0 + src) && c.Since(done, ts, n)
    {
      if Checksums() {
        var a := Adler.Adler32(c.adler, src);
        Adler.ChecksumConcat(1, input0, src);
        c.SetAdler(a, input0 + src, done, ts, n, lp);
      }
    }

    ghost method SetState(input': seq<Byte>, p': Progress)
      requires Wired() && c.Inv(input', p'.done, p'.ts, p'.n, p'.lp, 8) && p'.lp <= |input'| < p'.lp + MAX_MATCH
      requires SumIs(input') && c.Since(p'.done, p'.ts, p'.n)
      modifies this`input, this`p
      ensures Going() && input == input' && p == p'
    {
      c.ReadParts();
      SetFields(input', p');
    }

    ghost method SetFields(input': seq<Byte>, p': Progress)
      requires Wired() && c.Inv(input', p'.done, p'.ts, p'.n, p'.lp, 8) && c.Since(p'.done, p'.ts, p'.n)
      requires c.out.b.w as object in c.out.b.parts && c.out.b.w.out as object in c.out.b.parts
      requires c.out.b.lz as object in c.out.b.parts && c.out.b.lz.buf as object in c.out.b.parts
      requires c.out.b.lz.litCount as object in c.out.b.parts && c.out.b.lz.distCount as object in c.out.b.parts
      modifies this`input, this`p
      ensures c.Inv(input', p'.done, p'.ts, p'.n, p'.lp, 8) && input == input' && p == p'
      ensures c.Since(p'.done, p'.ts, p'.n)
    {
      input, p := input', p';
    }

    // ---- Ending

    /** Everything so far can be decoded from the output so far. */
    ghost predicate Flushed()
      reads this, c.out
    {
      SyncPoint(c.out.sink, c.flags, input) == true
    }

    /** The last block and the trailer. */
    method Finish()
      requires Wired() && Going() && p.lp == |input|
      modifies c, c.out, c.out.b.parts
      ensures Complete() && Restarts() && c.since == old(c.since) && c.mark == old(c.mark)
    {
      c.FinishTokens(input, p.done, p.ts, p.n);
      FinishedDecompresses(c.out.sink, c.flags, c.out.bits, input, c.adler);
      RestartInBytes(c.out.sink, c.flags, c.out.bits, c.mark, input[c.since..], c.adler);
    }

    /** A flush that keeps the compressor going. */
    method Sync(mode: FlushMode)
      requires Wired() && Going() && p.lp == |input| && (mode.SyncFlush? || mode.FullFlush?)
      modifies this`input, this`p, c, c.win, c.win.next, c.win.hash, c.out, c.out.b.parts
      ensures Going() && p.lp == |input| && input == old(input) && Flushed()
      ensures mode.FullFlush? ==> AtRestart()
      ensures c.since == old(c.since) && c.mark == old(c.mark)
    {
      ghost var all, size, adler0 := input, |input|, c.adler;
      c.OwnFields();
      SyncOnly(mode, all, p.done, p.ts, p.n);
      SetState(all, Progress(all, [], size, size));
      c.SyncedOutput(all, [], size, size);
      MarkedInBytes(c.out.sink, StreamHeader(c.flags, 1), c.out.bits);
    }

    method SyncOnly(mode: FlushMode, ghost all: seq<Byte>, ghost done0: seq<Byte>, ghost ts0: seq<Token>, ghost n0: nat)
      requires c.Tied() && c.Inv(all, done0, ts0, n0, |all|, 8) && (mode.SyncFlush? || mode.FullFlush?)
      requires c.Since(done0, ts0, n0)
      modifies c, c.win, c.win.next, c.win.hash, c.out, c.out.b.parts
      ensures c.Inv(all, all, [], |all|, |all|, 8) && c.AtByte() && Marked(c.out.bits) && c.Since(all, [], |all|)
      ensures c.since == old(c.since) && c.mark == old(c.mark)
      ensures c.adler == old(c.adler) && (mode.FullFlush? ==> c.win.base == |all|)
    {
      c.OwnFields();
      c.SyncTokens(mode, all, done0, ts0, n0);
      if mode.FullFlush? {
        c.Forget(all, all, [], |all|, |all|);
      }
    }

    /** `tdefl_compress_normal` and the checksum. */
    method Feed(src: seq<Byte>, flushing: bool)
      requires Wired() && Going()
      modifies this`input, this`p
      modifies c, c.win, c.win.dict, c.win.next, c.win.hash, c.out, c.out.b.parts
      ensures Going() && input == old(input) + src && (flushing ==> p.lp == |input|)
      ensures c.since == old(c.since) && c.mark == old(c.mark)
    {
      ghost var before := input;
      ghost var done', ts', n', lp' := TakeIn(src, flushing, input, p.done, p.ts, p.n, p.lp);
      SetState(before + src, Progress(done', ts', n', lp'));
    }

    /** The flush at the end of a call. */
    method Flush(mode: FlushMode)
      requires Wired() && Going() && p.lp == |input| && !mode.NoFlush? && !finished
      modifies this`input, this`p, this`finished
      modifies c, c.win, c.win.next, c.win.hash, c.out, c.out.b.parts
      ensures input == old(input) && (finished <==> mode.Finish?)
      ensures if mode.Finish? then Complete() && Restarts() else Going() && Flushed()
      ensures mode.FullFlush? ==> AtRestart()
      ensures c.since == old(c.since) && c.mark == old(c.mark)
    {
      if mode.Finish? {
        ghost var all := input;
        Finish();
        finished := true;
      } else {
        Sync(mode);
      }
    }

    /** Taking input in, and the flush that the mode asks for. */
    method Proceed(src: seq<Byte>, mode: FlushMode)
      requires Wired() && Going() && !finished
      modifies this`input, this`p, this`finished
      modifies c, c.win, c.win.dict, c.win.next, c.win.hash, c.out, c.out.b.parts
      ensures input == old(input) + src && (finished <==> mode.Finish?)
      ensures (!mode.Finish? ==> Going()) && Delivered(mode)
      ensures c.since == old(c.since) && c.mark == old(c.mark)
    {
      Feed(src, !mode.NoFlush?);
      if !mode.NoFlush? {
        Flush(mode);
      }
    }

    /** Notes a full flush as the restart that is kept from then on. */
    ghost method MarkRestart()
      requires Valid() && status.Okay? && AtRestart()
      modifies c`since, c`mark
      ensures Valid() && c.since == |input| && RestartAt(c.flags, c.mark) == |c.out.sink|
    {
      c.OwnFields();
      c.ReadParts();
      c.MarkHere(input);
    }

    /** `tdefl_compress` */
    method Compress(src: seq<Byte>, mode: FlushMode) returns (r: Status)
      requires Valid()
      modifies this, c, c.win, c.win.dict, c.win.next, c.win.hash, c.out, c.out.b.parts
      ensures Valid() && r == status
      ensures if old(!status.Okay? || (wantsToFinish && !mode.Finish?)) then
                r.BadParam? && input == old(input) && c.out.sink == old(c.out.sink)
              else
                && input == old(input) + src && r == (if mode.Finish? then Status.Done else Okay)
                && (wantsToFinish <==> old(wantsToFinish) || mode.Finish?)
                && Delivered(mode)
      ensures c.since == old(c.since) && c.mark == old(c.mark)
    {
      if !status.Okay? || (wantsToFinish && !mode.Finish?) {
        status := BadParam;
      } else {
        Accept(src, mode);
      }
      r := status;
    }

    /** A call that is not refused. */
    method Accept(src: seq<Byte>, mode: FlushMode)
      requires Valid() && status.Okay?
      modifies this, c, c.win, c.win.dict, c.win.next, c.win.hash, c.out, c.out.b.parts
      ensures Valid() && input == old(input) + src && status == (if mode.Finish? then Status.Done else Okay)
      ensures (wantsToFinish <==> old(wantsToFinish) || mode.Finish?) && Delivered(mode)
      ensures c.since == old(c.since) && c.mark == old(c.mark)
    {
      Want(mode);
      Proceed(src, mode);
      Answer(mode);
    }

    method Want(mode: FlushMode)
      requires Valid() && status.Okay?
      modifies this`wantsToFinish
      ensures Wired() && Going() && !finished && (wantsToFinish <==> old(wantsToFinish) || mode.Finish?)
    {
      wantsToFinish := wantsToFinish || mode.Finish?;
    }

    method Answer(mode: FlushMode)
      requires Wired() && Delivered(mode) && (finished <==> mode.Finish?) && (!finished ==> Going())
      modifies this`status
      ensures Valid() && Delivered(mode) && status == if mode.Finish? then Status.Done else Okay
    {
      status := if finished then Status.Done else Okay;
    }
  }
  // ---- Starting

  method NewWriter(lz: LzBuffer.Buffer, lit: HuffTable.Table, dist: HuffTable.Table, cl: HuffTable.Table)
    returns (w: BitWriter.Writer)
    requires lz.Empty()
    ensures lz.Empty() && w.out as object != lz.buf as object
    ensures fresh(w) && fresh(w.out) && w.Valid() && w.bitsIn == 0 && w.out.Length == BitWriter.OUT_BUF_SIZE
    ensures BlockWriter.Foreign(w.out, lit) && BlockWriter.Foreign(w.out, dist) && BlockWriter.Foreign(w.out, cl)
  {
    w := new BitWriter.Writer();
  }

  method NewBuffer(lit: HuffTable.Table, dist: HuffTable.Table, cl: HuffTable.Table) returns (lz: LzBuffer.Buffer)
    requires lit.Valid() && dist.Valid() && lit.count != dist.count
    requires forall i :: 0 <= i < HuffTable.MAX_SYMBOLS ==> lit.count[i] == dist.count[i] == 0
    ensures fresh(lz) && fresh(lz.buf) && lz.Empty() && lz.litCount == lit.count && lz.distCount == dist.count
    ensures BlockWriter.Foreign(lz.buf, lit) && BlockWriter.Foreign(lz.buf, dist) && BlockWriter.Foreign(lz.buf, cl)
  {
    lz := new LzBuffer.Buffer(lit.count, dist.count);
  }

  method NewArray<T(0)>(n: nat, x: T, w: BitWriter.Writer, lz: LzBuffer.Buffer, lit: HuffTable.Table,
                    dist: HuffTable.Table, cl: HuffTable.Table)
    returns (a: array<T>)
    ensures fresh(a) && a.Length == n && BlockWriter.Outside(a, w, lz, lit, dist, cl)
    ensures forall i :: 0 <= i < n ==> a[i] == x
  {
    a := new T[n](_ => x);
  }

  method NewBlocks() returns (b: BlockWriter.Blocks)
    ensures fresh(b) && b.Separate() && b.PartsAre() && fresh(b.parts) && fresh(b.dict) && fresh(b.next)
        && fresh(b.hash)
    ensures b.w.Valid() && b.w.bitsIn == 0 && b.w.out.Length == BitWriter.OUT_BUF_SIZE && b.lz.Empty()
    ensures b.dict as object !in b.parts && b.next as object !in b.parts && b.hash as object !in b.parts
    ensures b.dict.Length == W.DICT_SIZE + W.MIRROR && b.next.Length == W.DICT_SIZE && b.hash.Length == W.HASH_SIZE
    ensures forall i :: 0 <= i < W.HASH_SIZE ==> b.hash[i] == 0
  {
    var w, lz, lit, dist, cl := NewWriting();
    b := NewBlocksWith(w, lz, lit, dist, cl);
  }

  ghost function PartSet(w: BitWriter.Writer, lz: LzBuffer.Buffer, lit: HuffTable.Table, dist: HuffTable.Table,
                         cl: HuffTable.Table): set<object> {
    {w as object, w.out as object, lz as object, lz.buf as object, lit.count as object, lit.codes as object,
     lit.sizes as object, dist.count as object, dist.codes as object, dist.sizes as object,
     cl.count as object, cl.codes as object, cl.sizes as object}
  }

  method NewWriting()
    returns (w: BitWriter.Writer, lz: LzBuffer.Buffer, lit: HuffTable.Table, dist: HuffTable.Table, cl: HuffTable.Table)
    ensures lit.Valid() && dist.Valid() && cl.Valid() && lz.litCount == lit.count && lz.distCount == dist.count
    ensures BlockWriter.TablesApart(lit, dist) && BlockWriter.TablesApart(lit, cl) && BlockWriter.TablesApart(dist, cl)
    ensures BlockWriter.Foreign(lz.buf, lit) && BlockWriter.Foreign(lz.buf, dist) && BlockWriter.Foreign(lz.buf, cl)
    ensures BlockWriter.Foreign(w.out, lit) && BlockWriter.Foreign(w.out, dist) && BlockWriter.Foreign(w.out, cl)
    ensures w.out as object != lz.buf as object && w.Valid() && w.bitsIn == 0
        && w.out.Length == BitWriter.OUT_BUF_SIZE && lz.Empty()
    ensures fresh(PartSet(w, lz, lit, dist, cl))
  {
    lit, dist, cl := BlockWriter.NewTables();
    lz := NewBuffer(lit, dist, cl);
    w := NewWriter(lz, lit, dist, cl);
    assert fresh({w as object, w.out as object, lz as object, lz.buf as object});
    assert fresh({lit.count as object, lit.codes as object, lit.sizes as object});
    assert fresh({dist.count as object, dist.codes as object, dist.sizes as object});
    assert fresh({cl.count as object, cl.codes as object, cl.sizes as object});
  }

  method NewBlocksWith(w: BitWriter.Writer, lz: LzBuffer.Buffer, lit: HuffTable.Table, dist: HuffTable.Table,
                       cl: HuffTable.Table)
    returns (b: BlockWriter.Blocks)
    requires lit.Valid() && dist.Valid() && cl.Valid() && lz.litCount == lit.count && lz.distCount == dist.count
    requires BlockWriter.TablesApart(lit, dist) && BlockWriter.TablesApart(lit, cl) && BlockWriter.TablesApart(dist, cl)
    requires BlockWriter.Foreign(lz.buf, lit) && BlockWriter.Foreign(lz.buf, dist) && BlockWriter.Foreign(lz.buf, cl)
    requires BlockWriter.Foreign(w.out, lit) && BlockWriter.Foreign(w.out, dist) && BlockWriter.Foreign(w.out, cl)
    requires w.out as object != lz.buf as object && w.Valid() && w.bitsIn == 0 && lz.Empty()
    ensures w.Valid() && w.bitsIn == 0 && lz.Empty()
    ensures fresh(b) && b.Separate() && b.PartsAre() && b.w == w && b.lz == lz && fresh(b.dict) && fresh(b.next)
        && fresh(b.hash)
    ensures b.parts == PartSet(w, lz, lit, dist, cl)
    ensures b.dict as object !in b.parts && b.next as object !in b.parts && b.hash as object !in b.parts
    ensures b.dict.Length == W.DICT_SIZE + W.MIRROR && b.next.Length == W.DICT_SIZE && b.hash.Length == W.HASH_SIZE
    ensures forall i :: 0 <= i < W.HASH_SIZE ==> b.hash[i] == 0
  {
    var dict: array<Byte> := NewArray(W.DICT_SIZE + W.MIRROR, 0, w, lz, lit, dist, cl);
    var next: array<MinRedundancy.U16> := NewArray(W.DICT_SIZE, 0, w, lz, lit, dist, cl);
    var hash: array<MinRedundancy.U16> := NewArray(W.HASH_SIZE, 0, w, lz, lit, dist, cl);
    b := NewBlocksOf(w, lz, lit, dist, cl, dict, next, hash);
  }

  method NewBlocksOf(w: BitWriter.Writer, lz: LzBuffer.Buffer, lit: HuffTable.Table, dist: HuffTable.Table,
                     cl: HuffTable.Table,
                     dict: array<Byte>, next: array<MinRedundancy.U16>, hash: array<MinRedundancy.U16>)
    returns (b: BlockWriter.Blocks)
    requires lit.Valid() && dist.Valid() && cl.Valid() && lz.litCount == lit.count && lz.distCount == dist.count
    requires BlockWriter.TablesApart(lit, dist) && BlockWriter.TablesApart(lit, cl) && BlockWriter.TablesApart(dist, cl)
    requires BlockWriter.Foreign(lz.buf, lit) && BlockWriter.Foreign(lz.buf, dist) && BlockWriter.Foreign(lz.buf, cl)
    requires BlockWriter.Foreign(w.out, lit) && BlockWriter.Foreign(w.out, dist) && BlockWriter.Foreign(w.out, cl)
    requires w.out as object != lz.buf as object
    requires BlockWriter.Outside(dict, w, lz, lit, dist, cl) && BlockWriter.Outside(next, w, lz, lit, dist, cl)
    requires BlockWriter.Outside(hash, w, lz, lit, dist, cl)
    requires dict as object != next as object && dict as object != hash as object && next as object != hash as object
    ensures fresh(b) && b.Separate() && b.PartsAre() && b.w == w && b.lz == lz
    ensures b.parts == PartSet(w, lz, lit, dist, cl)
    ensures b.dict == dict && b.next == next && b.hash == hash
    ensures dict as object !in b.parts && next as object !in b.parts && hash as object !in b.parts
  {
    b := new BlockWriter.Blocks(w, lz, lit, dist, cl, dict, next, hash);
    assert Shown(b, 0);
  }

  /** `tdefl_init` */
  method NewDeflater(flags: Flags) returns (d: Deflater)
    ensures fresh(d) && d.Valid() && d.status.Okay? && !d.wantsToFinish && d.input == [] && d.c.flags == flags
    ensures d.c.out.sink == []
    ensures fresh(d.c) && fresh(d.c.out) && fresh(d.c.out.b.parts)
    ensures fresh(d.c.win) && fresh(d.c.win.dict) && fresh(d.c.win.next) && fresh(d.c.win.hash)
  {
    var b := NewBlocks();
    var c := NewCompressor(b, flags);
    d := new Deflater(c);
  }

  method NewCompressor(b: BlockWriter.Blocks, flags: Flags) returns (c: C.Compressor)
    requires b.Separate() && b.PartsAre() && b.w.Valid() && b.w.bitsIn == 0
        && b.w.out.Length == BitWriter.OUT_BUF_SIZE && b.lz.Empty()
    requires b.dict as object !in b.parts && b.next as object !in b.parts && b.hash as object !in b.parts
    requires b.dict.Length == W.DICT_SIZE + W.MIRROR && b.next.Length == W.DICT_SIZE && b.hash.Length == W.HASH_SIZE
    requires forall i :: 0 <= i < W.HASH_SIZE ==> b.hash[i] == 0
    ensures fresh(c) && c.out.b == b && fresh(c.out) && fresh(c.win)
    ensures c.win.dict == b.dict && c.win.next == b.next && c.win.hash == b.hash
    ensures c.Tied() && c.Inv([], [], [], 0, 0, 8) && c.Since([], [], 0) && c.adler == 1
    ensures c.out.sink == [] && c.flags == flags
  {
    var out := new Output(b);
    var win := new W.Window(b.dict, b.next, b.hash);
    c := new C.Compressor(win, out, flags);
    c.Tie();
    c.Initial();
  }

  /** `tdefl_compress_mem_to_output`: a whole buffer in one call. */
  method CompressToOutput(buf: seq<Byte>, flags: Flags) returns (d: Deflater)
    ensures fresh(d) && d.status.Done?
    ensures Decompresses(d.c.out.sink, flags.zlibHeader, buf)
  {
    d := NewDeflater(flags);
    var r := d.Compress(buf, FlushMode.Finish);
    assert [] + buf == buf;
  }
}
