/**
 The compressor's bit writer: `m_bit_buffer`, `m_bits_in` and the output buffer
 that full bytes go to. A byte that no longer fits is silently dropped.
 */
module BitWriter {
  import opened Bits

  /** TDEFL_OUT_BUF_SIZE */
  const OUT_BUF_SIZE := 85196

  function Min(a: nat, b: nat): nat {
    if a < b then a else b
  }

  class Writer {
    const out: array<Byte>
    var pos: nat
    var end: nat
    var buffer: nat
    var bitsIn: nat
    // Everything written since the output buffer was last emptied.
    ghost var bits: seq<bool>

    /** `e` full bytes have left the bit buffer; those that fit are in `out`. */
    ghost predicate Holds(e: nat)
      reads this, out
    {
      // Written as an equation so that the verifier treats it as one fact.
      (&& pos == Min(e, end) && end <= out.Length
       && |bits| == 8 * e + bitsIn && buffer < Pow2(bitsIn)
       && ToBits(buffer, bitsIn) == bits[8 * e..]
       && BytesToBits(out[..pos]) == bits[..8 * pos]) == true
    }

    ghost predicate Valid()
      reads this, out
    {
      (bitsIn < 8 && Holds(|bits| / 8)) == true
    }

    /** No byte has been dropped. */
    ghost predicate Complete()
      reads this
    {
      |bits| < 8 * end
    }

    constructor ()
      ensures Valid() && fresh(out) && out.Length == OUT_BUF_SIZE && bits == [] && bitsIn == 0
    {
      out := new Byte[OUT_BUF_SIZE];
      pos, end, buffer, bitsIn, bits := 0, 0, 0, 0, [];
      new;
      assert out[..0] == [];
    }

    /** Empties the output buffer and gives it room for `size` bytes. */
    method Restart(size: nat)
      requires Valid() && size <= out.Length
      modifies this
      ensures Valid() && bitsIn == old(bitsIn) && buffer == old(buffer) && pos == 0 && end == size
      ensures bits == old(bits[8 * (|bits| / 8)..])
    {
      bits := bits[8 * (|bits| / 8)..];
      pos, end := 0, size;
      assert out[..0] == [];
    }

    /** The low byte of the bit buffer is what comes next in `bits`. */
    lemma LowByteIsNext(e: nat)
      requires Holds(e) && bitsIn >= 8
      ensures ToBits(Low(buffer, 8), 8) == bits[8 * e..8 * e + 8]
      ensures ToBits(High(buffer, 8), bitsIn - 8) == bits[8 * e + 8..] && High(buffer, 8) < Pow2(bitsIn - 8)
    {
      SplitField(buffer, 8, bitsIn - 8);
      assert 8 + (bitsIn - 8) == bitsIn;
      assert bits[8 * e..8 * e + 8] == bits[8 * e..][..8];
      assert bits[8 * e + 8..] == bits[8 * e..][8..];
    }

    method Store(low: Byte)
      requires pos < end <= out.Length && |bits| >= 8 * pos + 8 && BytesToBits(out[..pos]) == bits[..8 * pos]
      requires ToBits(low, 8) == bits[8 * pos..8 * pos + 8]
      modifies this`pos, out
      ensures pos == old(pos) + 1 && BytesToBits(out[..pos]) == bits[..8 * pos]
    {
      ghost var before := out[..pos];
      BytesToBitsSnoc(before, low);
      out[pos] := low;
      assert out[..pos + 1] == before + [low];
      assert bits[..8 * (pos + 1)] == bits[..8 * pos] + bits[8 * pos..8 * pos + 8];
      pos := pos + 1;
    }

    method EmitByte(ghost e: nat)
      requires Holds(e) && bitsIn >= 8
      modifies this`pos, this`buffer, this`bitsIn, out
      ensures Holds(e + 1) && bitsIn == old(bitsIn) - 8
    {
      Pow2Values();
      LowByteIsNext(e);
      var low := Low(buffer, 8);
      if pos < end {
        Store(low);
      }
      buffer := High(buffer, 8);
      bitsIn := bitsIn - 8;
    }

    /** `TDEFL_PUT_BITS`: writes the low `n` bits of `v`, least significant first. */
    method PutBits(v: nat, n: nat)
      requires Valid() && v < Pow2(n)
      modifies this`pos, this`buffer, this`bitsIn, this`bits, out
      ensures Valid() && bits == old(bits) + ToBits(v, n)
    {
      ghost var e: nat := |bits| / 8;
      AppendField(v, n);
      buffer := buffer + Shl(v, bitsIn);
      bitsIn := bitsIn + n;
      bits := bits + ToBits(v, n);
      while bitsIn >= 8
        invariant Holds(e)
        invariant bits == old(bits) + ToBits(v, n) && end == old(end)
        decreases bitsIn
      {
        EmitByte(e);
        e := e + 1;
      }
      FullBytes(|bits|, e, bitsIn);
    }

    lemma FullBytes(n: nat, e: nat, r: nat)
      requires n == 8 * e + r && r < 8
      ensures n / 8 == e
    {
    }

    lemma AppendField(v: nat, n: nat)
      requires Valid() && v < Pow2(n)
      ensures buffer + Shl(v, bitsIn) < Pow2(bitsIn + n)
      ensures ToBits(buffer + Shl(v, bitsIn), bitsIn + n) == (bits + ToBits(v, n))[8 * (|bits| / 8)..]
      ensures bits[..8 * pos] == (bits + ToBits(v, n))[..8 * pos]
    {
      ShlFits(buffer, bitsIn, v, n);
      AppendTail(bits, ToBits(v, n), 8 * (|bits| / 8));
    }

    lemma AppendTail(s: seq<bool>, t: seq<bool>, k: nat)
      requires k <= |s|
      ensures (s + t)[k..] == s[k..] + t && forall j :: 0 <= j <= |s| ==> (s + t)[..j] == s[..j]
    {
    }

    /** Fills the last byte with zero bits. */
    method Align()
      requires Valid()
      modifies this`pos, this`buffer, this`bitsIn, this`bits, out
      ensures Valid() && |bits| % 8 == 0 && bits == old(bits) + ToBits(0, (8 - |old(bits)| % 8) % 8)
    {
      assert bitsIn == |bits| % 8;
      if bitsIn != 0 {
        PutBits(0, 8 - bitsIn);
      }
    }

    /** Room left means that nothing was dropped. */
    lemma RoomLeft()
      requires Valid()
      ensures pos < end <==> Complete()
    {
    }

    /** When nothing was dropped, output and bit buffer together hold everything written. */
    lemma CompleteOutput()
      requires Valid() && Complete()
      ensures BytesToBits(out[..pos]) + ToBits(buffer, bitsIn) == bits
    {
    }

    /** Goes back to an earlier point of the same buffer. */
    method Rewind(savedPos: nat, savedBuffer: nat, savedBitsIn: nat, ghost saved: seq<bool>)
      requires Valid() && saved <= bits && savedBitsIn == |saved| % 8 && savedBuffer < Pow2(savedBitsIn)
      requires savedPos == Min(|saved| / 8, end) && ToBits(savedBuffer, savedBitsIn) == saved[8 * (|saved| / 8)..]
      modifies this`pos, this`buffer, this`bitsIn, this`bits
      ensures Valid() && bits == saved
    {
      ghost var e := |saved| / 8;
      PrefixOfBytes(out[..pos], savedPos);
      assert out[..pos][..savedPos] == out[..savedPos];
      assert bits[..8 * pos][..8 * savedPos] == saved[..8 * savedPos];
      pos, buffer, bitsIn := savedPos, savedBuffer, savedBitsIn;
      bits := saved;
    }

    lemma PrefixOfBytes(bs: seq<Byte>, n: nat)
      requires n <= |bs|
      ensures BytesToBits(bs[..n]) == BytesToBits(bs)[..8 * n]
    {
      BytesToBitsConcat(bs[..n], bs[n..]);
      assert bs[..n] + bs[n..] == bs;
    }
  }
}
