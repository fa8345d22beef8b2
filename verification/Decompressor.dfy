/**
 The call an application makes (`tinfl_decompress`): a zlib header, the DEFLATE
 stream, and the checksum behind it, over as many calls as the caller likes.
 */
module Decompressor {
  import opened Bits
  import opened InflateSpec
  import opened InflateSteps
  import Adler
  import BitReader
  import OutBuffer
  import Inflater

  datatype Status = AdlerMismatch | Done | NeedsMoreInput | HasMoreOutput

  /** Around the DEFLATE stream: the two bytes before it, and how many of the four behind it have been read. */
  datatype Stage = Head0 | Head1 | Blocks | Tail(counter: nat) | Over

  // ---- The zlib format

  /** The checks on the two header bytes (RFC 1950, section 2.2). */
  predicate HeaderOk(z0: nat, z1: nat, wrapping: bool, ring: nat) {
    && (z0 * 256 + z1) % 31 == 0 && z1 / 32 % 2 == 0 && z0 % 16 == 8
    && (wrapping ==> Pow2(8 + z0 / 16) <= 32768 && Pow2(8 + z0 / 16) <= ring)
  }

  /** Bytes with the highest first. */
  function FromBigEndian(t: seq<Byte>): nat {
    if t == [] then 0 else FromBigEndian(t[..|t| - 1]) * 256 + t[|t| - 1]
  }

  /** What `m_z_adler32` holds after `k` bytes of the trailer: it starts as 1, which is shifted out by the fourth. */
  ghost function Shifted(trailer: seq<Byte>, k: nat): nat
    requires k <= |trailer|
  {
    (Pow2(8 * k) + FromBigEndian(trailer[..k])) % 0x1_0000_0000
  }

  lemma ShiftIn(trailer: seq<Byte>, k: nat)
    requires k < |trailer|
    ensures Shifted(trailer, k + 1) == (Shifted(trailer, k) * 256 + trailer[k]) % 0x1_0000_0000
  {
    assert trailer[..k + 1][..k] == trailer[..k];
    var x, c := Pow2(8 * k) + FromBigEndian(trailer[..k]), trailer[k];
    Pow2Values();
    Pow2Add(8 * k, 8);
    assert 8 * (k + 1) == 8 * k + 8;
    assert Pow2(8 * (k + 1)) == Pow2(8 * k) * 256;
    var q, r := x / 0x1_0000_0000, x % 0x1_0000_0000;
    assert x * 256 + c == 0x1_0000_0000 * (256 * q) + (r * 256 + c);
    ModShifted(r * 256 + c, 256 * q);
  }

  lemma ModShifted(a: nat, q: nat)
    ensures (0x1_0000_0000 * q + a) % 0x1_0000_0000 == a % 0x1_0000_0000
  {
    var k, r := a / 0x1_0000_0000, a % 0x1_0000_0000;
    DivModUnique(0x1_0000_0000 * q + a, 0x1_0000_0000, q + k, r);
  }

  lemma {:induction false} BigEndianBound(t: seq<Byte>)
    ensures FromBigEndian(t) < Pow2(8 * |t|)
    decreases |t|
  {
    if t != [] {
      var u := t[..|t| - 1];
      BigEndianBound(u);
      Pow2Values();
      Pow2Add(8 * |u|, 8);
      assert 8 * |t| == 8 * |u| + 8;
    }
  }

  lemma AllShifted(trailer: seq<Byte>)
    requires |trailer| == 4
    ensures Shifted(trailer, 4) == FromBigEndian(trailer)
    ensures Shifted(trailer, 0) == 1
  {
    BigEndianBound(trailer);
    assert trailer[..4] == trailer;
    Pow2Values();
    Pow2Add(16, 16);
    ModShifted(FromBigEndian(trailer), 1);
    ModSmall(FromBigEndian(trailer), 0x1_0000_0000);
  }

  /** A whole stream with its two parts that surround the DEFLATE data. */
  ghost predicate StreamOf(zlib: bool, all: seq<bool>, goal: Outcome, trailer: seq<Byte>, wrapping: bool, ring: nat) {
    (if zlib then
       && |all| >= 16 && HeaderOk(Val(all, 8), Val(all[8..], 8), wrapping, ring)
       && LeadsTo(AtHead, all[16..], [], goal) && goal.Done? && TrailerAhead(goal.rest[|goal.rest| % 8..], trailer, 0)
     else LeadsTo(AtHead, all, [], goal)) == true
  }

  /** The bytes of the trailer from the `k`-th on are next. */
  ghost predicate TrailerAhead(bits: seq<bool>, trailer: seq<Byte>, k: nat) {
    (|trailer| == 4 && k <= 4 && BytesToBits(trailer[k..]) <= bits) == true
  }

  /** `rest` is `bits` without the first `n`. */
  ghost predicate Skips(bits: seq<bool>, n: nat, rest: seq<bool>) {
    n <= |bits| && rest == bits[n..]
  }

  lemma NoneSkipped(bits: seq<bool>)
    ensures Skips(bits, 0, bits)
  {
  }

  /** `rest` is what stands behind a whole stream: behind its last block, or behind the trailer. */
  ghost predicate StandsBehind(rest: seq<bool>, zlib: bool, goal: Outcome) {
    (goal.Done? && if zlib then Skips(goal.rest[|goal.rest| % 8..], 32, rest) else rest == goal.rest) == true
  }

  lemma TrailerByte(bits: seq<bool>, trailer: seq<Byte>, k: nat)
    requires TrailerAhead(bits, trailer, k) && k < 4
    ensures |bits| >= 8 && Val(bits, 8) == trailer[k] && TrailerAhead(bits[8..], trailer, k + 1)
  {
    var t := trailer[k..];
    assert t[1..] == trailer[k + 1..] && t[0] == trailer[k];
    var a, b := ToBits(t[0], 8), BytesToBits(t[1..]);
    assert BytesToBits(t) == a + b;
    assert bits[..8] == a by {
      assert (a + b)[..8] == a && bits[..|a + b|] == a + b;
    }
    assert b <= bits[8..] by {
      assert (a + b)[8..] == b && bits[..|a + b|][8..] == bits[8..][..|b|];
    }
    Pow2Values();
    FromToBits(t[0], 8);
  }

  // ---- The decompressor as an application sees it

  class Decompressor {
    const r: BitReader.Reader
    const o: OutBuffer.Buffer
    const inner: Inflater.Inflater
    // TINFL_FLAG_PARSE_ZLIB_HEADER
    const zlib: bool
    var stage: Stage
    var zhdr0: nat
    var zAdler: nat
    var checkAdler: Adler.U32
    ghost const trailer: seq<Byte>
    // Everything that decompression changes besides this object.
    ghost const parts: set<object>

    ghost predicate Linked() {
      (inner.r == r && inner.o == o && inner.Apart() && this !in parts && PartsAre()) == true
    }

    /** The members of `parts`; kept closed. */
    ghost predicate PartsAre() {
      forall k {:trigger Shown(this, k)} :: Shown(this, k) ==>
        && parts == {r, o, o.buf, inner, inner.t0, inner.t0.codeSize, inner.t0.lookUp, inner.t0.tree,
                     inner.t1, inner.t1.codeSize, inner.t1.lookUp, inner.t1.tree,
                     inner.t2, inner.t2.codeSize, inner.t2.lookUp, inner.t2.tree}
    }

    // ---- What holds at each stage

    /** The DEFLATE data and the trailer behind it are still to come, after `n` more bits. */
    ghost predicate AllAhead(n: nat)
      reads r, o, o.buf, inner
    {
      (&& inner.r == r && inner.o == o && inner.AtStart() && r.Valid() && o.Valid() && r.numBits == 0 && n <= |r.rest|
       && LeadsTo(AtHead, r.rest[n..], o.hist, inner.goal) && Behind()) == true
    }

    /** The trailer comes behind the DEFLATE data, aligned to a byte. */
    ghost predicate Behind() {
      (zlib ==> inner.goal.Done? && TrailerAhead(inner.goal.rest[|inner.goal.rest| % 8..], trailer, 0)) == true
    }

    ghost predicate InHead0()
      reads this, r, o, o.buf, inner
    {
      (zlib && AllAhead(16) && HeaderOk(Val(r.rest, 8), Val(r.rest[8..], 8), o.wrapping, o.buf.Length)) == true
    }

    ghost predicate InHead1()
      reads this, r, o, o.buf, inner
    {
      (zlib && AllAhead(8) && HeaderOk(zhdr0, Val(r.rest, 8), o.wrapping, o.buf.Length)) == true
    }

    ghost predicate InTail(k: nat)
      reads this, r, o, o.buf
    {
      (&& zlib && r.Valid() && o.Valid() && k <= 4 && r.numBits % 8 == 0 && AllOut()
       && TrailerAhead(r.rest, trailer, k) && zAdler == Shifted(trailer, k)
       && Skips(inner.goal.rest[|inner.goal.rest| % 8..], 8 * k, r.rest)) == true
    }

    /** Everything is read, and no more than that. */
    ghost predicate InOver()
      reads this, r, o, o.buf
    {
      (&& r.Valid() && o.Valid() && AllOut() && (zlib ==> |trailer| == 4 && zAdler == FromBigEndian(trailer))
       && StandsBehind(r.rest, zlib, inner.goal)) == true
    }

    /** All of the output is there. */
    ghost predicate AllOut()
      reads o
    {
      inner.goal.Done? && o.hist == inner.goal.out
    }

    ghost predicate InStage()
      reads this, r, o, o.buf, inner, inner.t0, inner.t0.lookUp, inner.t0.tree, inner.t1, inner.t1.lookUp,
          inner.t1.tree, inner.t2, inner.t2.codeSize, inner.t2.lookUp, inner.t2.tree
      requires inner.r == r && inner.o == o
    {
      match stage
      case Head0 => InHead0()
      case Head1 => InHead1()
      case Blocks => inner.Ok() && Behind()
      case Tail(k) => InTail(k)
      case Over => InOver()
    }

    ghost predicate Valid()
      reads this, r, o, o.buf, inner, inner.t0, inner.t0.lookUp, inner.t0.tree, inner.t1, inner.t1.lookUp,
          inner.t1.tree, inner.t2, inner.t2.codeSize, inner.t2.lookUp, inner.t2.tree
    {
      (Linked() && InStage() && Checked()) == true
    }

    ghost predicate Checked()
      reads this, o
    {
      (zlib ==> checkAdler == Adler.Checksum(1, o.hist)) == true
    }

    constructor (o: OutBuffer.Buffer, zlib: bool, ghost all: seq<bool>, ghost goal: Outcome, ghost trailer: seq<Byte>)
      requires o.Valid() && o.hist == [] && |all| % 8 == 0
          && StreamOf(zlib, all, goal, trailer, o.wrapping, o.buf.Length)
      ensures Valid() && this.o == o && this.zlib == zlib && this.trailer == trailer && inner.goal == goal
      ensures fresh(parts - {o, o.buf}) && fresh(r) && r.rest == all && r.inp == [] && r.later == all
    {
      var reader := new BitReader.Reader(all);
      var core := new Inflater.Inflater(reader, o, goal);
      this.r, this.o, this.inner, this.zlib, this.trailer := reader, o, core, zlib, trailer;
      parts := {reader, o, o.buf, core, core.t0, core.t0.codeSize, core.t0.lookUp, core.t0.tree,
                core.t1, core.t1.codeSize, core.t1.lookUp, core.t1.tree,
                core.t2, core.t2.codeSize, core.t2.lookUp, core.t2.tree};
      stage := if zlib then Head0 else Blocks;
      zhdr0, zAdler, checkAdler := 0, 1, 1;
      new;
      StreamStarts(all);
    }

    lemma StreamStarts(all: seq<bool>)
      requires inner.r == r && inner.o == o && inner.Apart() && inner.AtStart() && r.Valid() && o.Valid()
          && r.rest == all && r.numBits == 0 && o.hist == []
      requires StreamOf(zlib, all, inner.goal, trailer, o.wrapping, o.buf.Length)
      requires stage == if zlib then Head0 else Blocks
      requires checkAdler == 1
      ensures InStage() && Checked()
    {
      if !zlib {
        inner.Started();
      }
    }

    /** All input of the call has been read, there is more to come, and what comes next cannot be told without it. */
    ghost predicate OutOfInput()
      reads this, r, inner
    {
      (&& r.inPos == |r.inp| && r.later != []
       && if stage.Blocks? then Waits(inner.st, r.rest, r.numBits) else r.numBits == 0) == true
    }

    /** One byte, from the bit buffer while there is something in it. */
    method GetByte() returns (ok: bool, c: nat)
      requires r.Valid() && r.numBits % 8 == 0 && |r.rest| >= 8
      modifies r`bitBuf, r`numBits, r`inPos, r`rest
      ensures r.Valid() && r.numBits % 8 == 0 && (old(r.numBits) == 0 ==> r.numBits == 0)
      ensures ok ==> c == Val(old(r.rest), 8) && r.rest == old(r.rest)[8..]
      ensures !ok ==> r.rest == old(r.rest) && r.inPos == |r.inp| && r.later != [] && r.numBits == 0
    {
      ok, c := true, 0;
      if r.numBits > 0 {
        r.Peek(8);
        c := Low(r.bitBuf, 8);
        r.Drop(8);
      } else if r.inPos < |r.inp| {
        c := r.ReadByte();
      } else {
        r.AllLoaded();
        ok := false;
      }
    }

    /** The first header byte. */
    method ReadHead0() returns (ok: bool)
      requires Linked() && stage.Head0? && InHead0()
      modifies this`stage, this`zhdr0, r`bitBuf, r`numBits, r`inPos, r`rest
      ensures if ok then stage.Head1? && InHead1() else stage.Head0? && InHead0() && OutOfInput()
    {
      ghost var rest := r.rest;
      var c;
      ok, c := GetByte();
      if ok {
        assert rest[8..][8..] == rest[16..];
        zhdr0, stage := c, Head1;
      }
    }

    /** The second header byte and the check of both. */
    method ReadHead1() returns (ok: bool)
      requires Linked() && stage.Head1? && InHead1()
      modifies this`stage, r`bitBuf, r`numBits, r`inPos, r`rest
      ensures if ok then stage.Blocks? && inner.Ok() && Behind()
              else stage.Head1? && InHead1() && OutOfInput()
    {
      var c;
      ok, c := GetByte();
      if ok {
        // The header of a valid stream passes the check.
        assert HeaderOk(zhdr0, c, o.wrapping, o.buf.Length);
        inner.Started();
        stage := Blocks;
      }
    }

    /** The DEFLATE data: as much of it as input and room allow. */
    method ReadBlocks() returns (sig: Inflater.Signal)
      requires Linked() && stage.Blocks? && inner.Ok() && Behind()
      modifies parts
      ensures inner.Ok() && Behind() && !sig.Go? && Produced(old(o.hist), old(o.end - o.pos))
      ensures sig.NeedsInput? ==> r.inPos == |r.inp| && r.later != [] && Waits(inner.st, r.rest, r.numBits)
      ensures sig.FullOutput? ==> o.pos == o.end && inner.Writing()
      ensures sig.Over? ==> inner.pc.Finished?
      ensures SameCall(old(r.inp), old(r.later), old(o.end))
    {
      assert Shown(this, 0);
      sig := inner.Resume();
    }

    /** What belongs to the call has not changed. */
    ghost predicate SameCall(inp0: seq<Byte>, later0: seq<bool>, end0: nat)
      reads r, o
    {
      (r.inp == inp0 && r.later == later0 && o.end == end0) == true
    }

    /** Output was added to `hist0`, and took that much of the room. */
    ghost predicate Produced(hist0: seq<Byte>, room0: int)
      reads o
    {
      (hist0 <= o.hist && |o.hist| + (o.end - o.pos) == |hist0| + room0) == true
    }

    /** Behind the last block: to the next byte, where the trailer is. */
    method EndBlocks()
      requires Linked() && stage.Blocks? && inner.Ok() && Behind() && inner.pc.Finished?
      modifies this`stage, this`zAdler, r`bitBuf, r`numBits, r`rest
      ensures if zlib then stage == Tail(0) && InTail(0) else stage.Over? && InOver()
    {
      inner.AtTheEnd();
      if zlib {
        SkipToTail();
      } else {
        stage := Over;
      }
    }

    method SkipToTail()
      requires zlib && r.Valid() && o.Valid() && AllOut() && TrailerAhead(r.rest[|r.rest| % 8..], trailer, 0)
      requires r.rest == inner.goal.rest
      modifies this`stage, this`zAdler, r`bitBuf, r`numBits, r`rest
      ensures stage == Tail(0) && InTail(0)
    {
      r.RestStarts();
      ghost var behind := r.rest[|r.rest| % 8..];
      r.Drop(r.numBits % 8);
      AllShifted(trailer);
      NoneSkipped(behind);
      assert r.rest == behind;
      zAdler, stage := 1, Tail(0);
    }

    /** The trailer byte by byte. */
    method ReadTail() returns (ok: bool)
      requires Linked() && stage.Tail? && InTail(stage.counter)
      modifies this`stage, this`zAdler, r`bitBuf, r`numBits, r`inPos, r`rest
      ensures if ok then stage.Over? && InOver()
              else stage.Tail? && InTail(stage.counter) && OutOfInput()
    {
      ok := true;
      while ok && stage.counter < 4
        invariant stage.Tail? && InTail(stage.counter) && (ok || OutOfInput())
        decreases 4 - stage.counter, if ok then 1 else 0
      {
        ok := ReadTailByte();
      }
      if ok {
        AllShifted(trailer);
        stage := Over;
      }
    }

    method ReadTailByte() returns (ok: bool)
      requires Linked() && stage.Tail? && InTail(stage.counter) && stage.counter < 4
      modifies this`stage, this`zAdler, r`bitBuf, r`numBits, r`inPos, r`rest
      ensures stage.Tail? && InTail(stage.counter)
      ensures if ok then stage.counter == old(stage.counter) + 1
              else stage == old(stage) && OutOfInput()
    {
      TrailerByte(r.rest, trailer, stage.counter);
      ShiftIn(trailer, stage.counter);
      var c;
      ok, c := GetByte();
      if ok {
        zAdler := (zAdler * 256 + c) % 0x1_0000_0000;
        stage := Tail(stage.counter + 1);
      }
    }

    // ---- One call

    /** Why a call stopped. */
    ghost predicate Stopped(status: Status)
      reads this, r, o, inner
    {
      (&& (status.NeedsMoreInput? ==> OutOfInput())
       && (status.HasMoreOutput? ==> o.pos == o.end && stage.Blocks? && inner.Writing())
       && (status.Done? ==> stage.Over?) && !status.AdlerMismatch?) == true
    }

    method AdvanceHead() returns (ok: bool)
      requires Linked() && InStage()
      modifies this`stage, this`zhdr0, r`bitBuf, r`numBits, r`inPos, r`rest
      ensures InStage() && if ok then !stage.Head0? && !stage.Head1? else OutOfInput()
    {
      ok := true;
      if stage.Head0? {
        ok := ReadHead0();
      }
      if ok && stage.Head1? {
        ok := ReadHead1();
      }
    }

    method AdvanceTail() returns (status: Status)
      requires Linked() && InStage() && (stage.Tail? || stage.Over?)
      modifies this`stage, this`zAdler, r`bitBuf, r`numBits, r`inPos, r`rest
      ensures InStage() && Stopped(status)
    {
      var ok := true;
      if stage.Tail? {
        ok := ReadTail();
      }
      status := if ok then Status.Done else NeedsMoreInput;
    }

    method AdvanceBlocks() returns (status: Status)
      requires Linked() && InStage() && stage.Blocks?
      modifies this`stage, this`zhdr0, this`zAdler, parts
      ensures InStage() && Stopped(status) && Produced(old(o.hist), old(o.end - o.pos))
          && SameCall(old(r.inp), old(r.later), old(o.end))
    {
      assert Shown(this, 0);
      var sig := ReadBlocks();
      if sig.Over? {
        status := AfterBlocks();
      } else {
        status := if sig.NeedsInput? then NeedsMoreInput else HasMoreOutput;
      }
    }

    method AfterBlocks() returns (status: Status)
      requires Linked() && stage.Blocks? && inner.Ok() && Behind() && inner.pc.Finished?
      modifies this`stage, this`zAdler, r`bitBuf, r`numBits, r`inPos, r`rest
      ensures InStage() && Stopped(status)
    {
      EndBlocks();
      status := AdvanceTail();
    }

    method Advance() returns (status: Status)
      requires Linked() && InStage()
      modifies this`stage, this`zhdr0, this`zAdler, parts
      ensures InStage() && Stopped(status) && Produced(old(o.hist), old(o.end - o.pos))
          && SameCall(old(r.inp), old(r.later), old(o.end))
    {
      assert Shown(this, 0);
      var ok := AdvanceHead();
      if !ok {
        status := NeedsMoreInput;
      } else if stage.Blocks? {
        status := AdvanceBlocks();
      } else {
        status := AdvanceTail();
      }
    }

    /** The input of this call goes on where the last call stopped reading. */
    ghost predicate GoesOn(bytes: seq<Byte>, more: seq<bool>)
      reads r
    {
      (r.inPos <= |r.inp| && |more| % 8 == 0 && BytesToBits(bytes) + more ==
          BytesToBits(r.inp[r.inPos..]) + r.later) == true
    }

    /** Sets up the buffers of a call. */
    method Begin(bytes: seq<Byte>, room: nat, ghost more: seq<bool>)
      requires Linked() && InStage() && GoesOn(bytes, more) && (o.wrapping || o.pos + room <= o.buf.Length)
      modifies r`inp, r`inPos, r`later, o`pos, o`end
      ensures InStage() && r.inp == bytes && r.later == more && o.hist == old(o.hist)
      ensures if o.wrapping then o.pos < o.end == o.buf.Length else o.pos == old(o.pos) && o.end == o.pos + room
    {
      r.Feed(bytes, more);
      o.NextCall(room);
    }

    /** The checksum of everything so far, and whether it is the one in the trailer. */
    method Check(produced: seq<Byte>, status0: Status, ghost hist0: seq<Byte>) returns (status: Status)
      requires Linked() && InStage() && Stopped(status0) && o.hist == hist0 + produced
      requires zlib ==> checkAdler == Adler.Checksum(1, hist0)
      modifies this`checkAdler
      ensures Valid() && (if status.AdlerMismatch? then status0.Done? else status == status0) && Verdict(status)
    {
      status := status0;
      if zlib {
        Adler.ChecksumConcat(1, hist0, produced);
        checkAdler := Adler.Adler32(checkAdler, produced);
        if status.Done? && checkAdler != zAdler {
          status := AdlerMismatch;
        }
      }
    }

    /** At the end the output is complete, and the checksum has been compared. */
    ghost predicate Verdict(status: Status)
      reads r, o
    {
      (status.Done? || status.AdlerMismatch? ==>
         && AllOut() && StandsBehind(r.rest, zlib, inner.goal) && (zlib ==> |trailer| == 4 && (status.Done? <==>
             FromBigEndian(trailer) == Adler.Checksum(1, o.hist)))
         && (!zlib ==> status.Done?)) == true
    }

    /**
     Where reading has stopped at the end: `unread` bits are left, and what stands behind
     the stream is these and fewer than eight bytes that were loaded ahead.
     */
    ghost predicate StopsBehind(status: Status, unread: int)
      reads r
    {
      (status.Done? || status.AdlerMismatch? ==>
         StandsBehind(r.rest, zlib, inner.goal) && unread <= |r.rest| < unread + 64) == true
    }

    /** One call of `tinfl_decompress` on a valid stream: reads `used` bytes and writes `produced`. */
    method Decompress(bytes: seq<Byte>, room: nat, hasMore: bool, ghost more: seq<bool>)
      returns (status: Status, used: nat, produced: seq<Byte>)
      requires Valid() && GoesOn(bytes, more) && (o.wrapping || o.pos + room <= o.buf.Length)
          && (more != [] ==> hasMore)
      modifies this`stage, this`zhdr0, this`zAdler, this`checkAdler, parts
      ensures Valid() && o.hist == old(o.hist) + produced && Verdict(status)
      ensures r.inp == bytes && r.inPos == used <= |bytes| && r.later == more
      ensures StopsBehind(status, 8 * (|bytes| - used) + |more|)
      ensures status.NeedsMoreInput? ==> used == |bytes| && more != [] && OutOfInput()
      ensures status.HasMoreOutput? ==>
                o.pos == o.end && stage.Blocks? && inner.Writing() && (o.wrapping ==> produced != [])
      ensures !o.wrapping ==> o.pos == old(o.pos) + |produced| && o.end == old(o.pos) + room
    {
      ghost var hist0 := o.hist;
      assert Shown(this, 0);
      Begin(bytes, room, more);
      status, produced := Produce(hasMore);
      used := r.inPos;
      status := Check(produced, status, hist0);
      r.Unread();
    }

    /** New output, and why there is no more of it. */
    method Produce(hasMore: bool) returns (status: Status, produced: seq<Byte>)
      requires Linked() && InStage() && (r.later != [] ==> hasMore)
      modifies this`stage, this`zhdr0, this`zAdler, parts
      ensures InStage() && Stopped(status) && o.hist == old(o.hist) + produced
          && SameCall(old(r.inp), old(r.later), old(o.end))
      ensures o.pos == old(o.pos) + |produced|
    {
      var start := o.pos;
      status := Advance();
      // Without TINFL_FLAG_HAS_MORE_INPUT zeros would be read here; a valid stream never comes to that.
      assert status.NeedsMoreInput? ==> hasMore;
      produced := o.Latter(o.pos - start);
    }

    /** A call that stops for room has more to write. */
    lemma SoFar(status: Status)
      requires Valid() && Verdict(status) && (status.HasMoreOutput? ==> stage.Blocks? && inner.Writing())
      ensures status.HasMoreOutput? ==> inner.goal.Done? && |o.hist| < |inner.goal.out|
    {
      if status.HasMoreOutput? {
        inner.SoFar();
      }
    }
  }
}
