/**
 The decompressor's bit buffer. Input arrives in pieces; whatever has been loaded
 into the bit buffer stays there when a call has to stop for more.
 */
module BitReader {
  import opened Bits
  import opened InflateSpec

  /** The most bits that are ever in the bit buffer. */
  const MAX_BITS := 61

  class Reader {
    var bitBuf: nat
    var numBits: nat
    // The input of the current call and how much of it has been read.
    var inp: seq<Byte>
    var inPos: nat
    // The input of later calls.
    ghost var later: seq<bool>
    // Everything still to be decoded.
    ghost var rest: seq<bool>

    ghost predicate Valid()
      reads this
    {
      (inPos <= |inp| && numBits <= MAX_BITS && Holds()) == true
    }

    /** The bit buffer, the unread input and the input of later calls make up the rest; kept closed. */
    ghost predicate Holds()
      reads this
      requires inPos <= |inp|
    {
      forall k {:trigger Shown(this, k)} :: Shown(this, k) ==>
        bitBuf < Pow2(numBits) && |later| % 8 == 0 && rest == Loaded() + (BytesToBits(inp[inPos..]) + later)
    }

    /** What is in the bit buffer. */
    ghost function Loaded(): (s: seq<bool>)
      reads this
      ensures |s| == numBits
    {
      ToBits(bitBuf, numBits)
    }

    constructor (ghost all: seq<bool>)
      requires |all| % 8 == 0
      ensures Valid() && rest == all && numBits == 0 && inp == [] && inPos == 0 && later == all
    {
      bitBuf, numBits, inp, inPos, later, rest := 0, 0, [], 0, all, all;
      new;
      assert Loaded() + (BytesToBits(inp[inPos..]) + later) == all;
    }

    /** The next call brings more input, perhaps with some that was left unread. */
    method Feed(bytes: seq<Byte>, ghost more: seq<bool>)
      requires Valid() && BytesToBits(bytes) + more == BytesToBits(inp[inPos..]) + later && |more| % 8 == 0
      modifies this`inp, this`inPos, this`later
      ensures Valid() && rest == old(rest) && inp == bytes && inPos == 0 && later == more
    {
      assert Shown(this, 0);
      inp, inPos, later := bytes, 0, more;
      assert bytes[0..] == bytes;
    }

    /** The loaded bits come first, and only they determine the place within a byte. */
    lemma RestStarts()
      requires Valid()
      ensures Loaded() <= rest && |rest| % 8 == numBits % 8
      ensures inPos == |inp| && later == [] ==> rest == Loaded()
      ensures bitBuf < Pow2(numBits)
    {
      assert Shown(this, 0);
    }

    /** What is left of the input, and the few bits that were loaded ahead. */
    lemma Unread()
      requires Valid()
      ensures |rest| == numBits + (8 * (|inp| - inPos) + |later|) && numBits < 64
    {
      assert Shown(this, 0);
    }

    /** Loads one byte behind the bits already there. */
    method LoadByte()
      requires Valid() && inPos < |inp| && numBits + 8 <= MAX_BITS
      modifies this`bitBuf, this`numBits, this`inPos
      ensures Valid() && rest == old(rest) && numBits == old(numBits) + 8 && inPos == old(inPos) + 1
    {
      assert Shown(this, 0);
      Pow2Values();
      ShlFits(bitBuf, numBits, inp[inPos], 8);
      FirstOut(inp, inPos, Loaded(), later);
      bitBuf := bitBuf + Shl(inp[inPos], numBits);
      numBits := numBits + 8;
      inPos := inPos + 1;
    }

    /** The next byte moves from the input to what is loaded. */
    lemma FirstOut(bytes: seq<Byte>, at: nat, loaded: seq<bool>, more: seq<bool>)
      requires at < |bytes|
      ensures loaded + (BytesToBits(bytes[at..]) + more)
           == (loaded + ToBits(bytes[at], 8)) + (BytesToBits(bytes[at + 1..]) + more)
    {
      assert bytes[at..][1..] == bytes[at + 1..];
      MoveField(loaded, ToBits(bytes[at], 8), BytesToBits(bytes[at + 1..]), more);
    }

    lemma MoveField(a: seq<bool>, b: seq<bool>, c: seq<bool>, d: seq<bool>)
      ensures a + (b + c + d) == (a + b) + (c + d)
    {
    }

    /** Drops the `n` lowest bits of the bit buffer. */
    method Drop(n: nat)
      requires Valid() && n <= numBits
      modifies this`bitBuf, this`numBits, this`rest
      ensures Valid() && n <= |old(rest)| && rest == old(rest)[n..] && numBits == old(numBits) - n
      ensures old(Loaded())[..n] + Loaded() == old(Loaded())
    {
      assert Shown(this, 0);
      SplitField(bitBuf, n, numBits - n);
      ghost var a, b, c := ToBits(Low(bitBuf, n), n), ToBits(High(bitBuf, n), numBits - n),
          BytesToBits(inp[inPos..]) + later;
      assert n + (numBits - n) == numBits;
      Regroup(a, b, c);
      assert (a + (b + c))[n..] == b + c;
      bitBuf := High(bitBuf, n);
      numBits := numBits - n;
      rest := rest[n..];
    }

    /** The lowest `n` bits are the next field. */
    lemma Peek(n: nat)
      requires Valid() && n <= numBits
      ensures n <= |rest| && Low(bitBuf, n) == Val(rest, n)
    {
      assert Shown(this, 0);
      SplitField(bitBuf, n, numBits - n);
      assert n + (numBits - n) == numBits;
      assert rest[..n] == ToBits(Low(bitBuf, n), n);
      FromToBits(Low(bitBuf, n), n);
    }

    /** `TINFL_NEED_BITS`: loads bytes until there are `n` bits, or the input of this call runs out. */
    method NeedBits(n: nat) returns (ok: bool)
      requires Valid() && n <= 16
      modifies this`bitBuf, this`numBits, this`inPos
      ensures Valid() && rest == old(rest) && numBits >= old(numBits)
      ensures ok <==> numBits >= n
      ensures !ok ==> inPos == |inp|
    {
      while numBits < n && inPos < |inp|
        invariant Valid() && rest == old(rest) && numBits >= old(numBits)
        decreases |inp| - inPos
      {
        LoadByte();
      }
      ok := numBits >= n;
    }

    /** `TINFL_GET_BITS` */
    method GetBits(n: nat) returns (ok: bool, v: nat)
      requires Valid() && n <= 16
      modifies this`bitBuf, this`numBits, this`inPos, this`rest
      ensures Valid()
      ensures ok ==> n <= |old(rest)| && v == Val(old(rest), n) && rest == old(rest)[n..]
      ensures !ok ==> rest == old(rest) && inPos == |inp| && numBits < n
    {
      ok := NeedBits(n);
      v := 0;
      if ok {
        Peek(n);
        v := Low(bitBuf, n);
        Drop(n);
      }
    }

    /** With the bit buffer empty, bytes are read straight from the input. */
    method ReadByte() returns (c: Byte)
      requires Valid() && numBits == 0 && inPos < |inp|
      modifies this`inPos, this`rest
      ensures Valid() && |old(rest)| >= 8 && c == Val(old(rest), 8) && rest == old(rest)[8..] && inPos == old(inPos) + 1
    {
      c := inp[inPos];
      ByteFirst();
      inPos := inPos + 1;
      rest := rest[8..];
    }

    /** With no bits loaded, the next byte of input comes first. */
    lemma ByteFirst()
      requires Valid() && numBits == 0 && inPos < |inp|
      ensures |rest| >= 8 && inp[inPos] == Val(rest, 8)
      ensures bitBuf < 1 && |later| % 8 == 0 && rest[8..] == [] + (BytesToBits(inp[inPos + 1..]) + later)
    {
      assert Shown(this, 0);
      var c, tail := inp[inPos], inp[inPos + 1..];
      assert inp[inPos..] == [c] + tail;
      Pow2Values();
      FromToBits(c, 8);
      assert BytesToBits(inp[inPos..]) == ToBits(c, 8) + BytesToBits(tail);
      assert rest == ToBits(c, 8) + (BytesToBits(tail) + later);
    }

    /** Nothing more to come means that everything is at hand. */
    lemma AllLoaded()
      requires Valid() && inPos == |inp| && |rest| > numBits
      ensures later != []
    {
      assert Shown(this, 0);
    }
  }
}
