/**
 Where decompressed bytes go: either one buffer for the whole output, or a ring
 that is emptied whenever it is full. Matches are copied from earlier output.
 */
module OutBuffer {
  import opened Bits
  import opened Tokens

  class Buffer {
    const buf: array<Byte>
    // Without TINFL_FLAG_USING_NON_WRAPPING_OUTPUT_BUF.
    const wrapping: bool
    var pos: nat
    var end: nat
    // All output so far.
    ghost var hist: seq<Byte>

    /** The slot of output position `p`. */
    function Slot(p: nat): (i: nat)
      requires wrapping ==> buf.Length >= 1
    {
      if wrapping then p % buf.Length else p
    }

    /** The oldest output that matches may refer to. */
    ghost function Oldest(): nat
      reads this
    {
      if wrapping && |hist| > buf.Length then |hist| - buf.Length else 0
    }

    ghost predicate Valid()
      reads this, buf
    {
      (pos <= end <= buf.Length && (wrapping ==> buf.Length >= MAX_DIST) && Holds()) == true
    }

    /** The buffer holds the latest output. */
    ghost predicate Latest()
      reads this, buf
      requires pos <= end <= buf.Length && (wrapping ==> buf.Length >= 1)
    {
      && (if wrapping then end == buf.Length && (|hist| - pos) % buf.Length == 0 else pos == |hist|)
      && pos <= |hist|
      && forall p {:trigger hist[p]} :: Oldest() <= p < |hist| ==> buf[Slot(p)] == hist[p]
    }

    /** The same, kept closed. */
    ghost predicate Holds()
      reads this, buf
      requires pos <= end <= buf.Length && (wrapping ==> buf.Length >= 1)
    {
      forall k {:trigger Shown(this, k)} :: Shown(this, k) ==> Latest()
    }

    constructor (size: nat, wrapping: bool)
      requires wrapping ==> size >= MAX_DIST
      ensures Valid() && hist == [] && fresh(buf) && this.wrapping == wrapping && pos == 0 && buf.Length == size
      ensures end == if wrapping then size else 0
    {
      buf := new Byte[size];
      this.wrapping := wrapping;
      pos, end, hist := 0, if wrapping then size else 0, [];
    }

    /** Where output position `|hist|` goes. */
    lemma NextSlot()
      requires Valid() && pos < end
      ensures Slot(|hist|) == pos
      ensures forall p :: Oldest() <= p < |hist| && p + buf.Length > |hist| ==> Slot(p) != pos
    {
      assert Shown(this, 0);
      if wrapping {
        SameRest(|hist|, pos, buf.Length);
        forall p | Oldest() <= p < |hist| && p + buf.Length > |hist| ensures Slot(p) != pos {
          DifferentRests(p, |hist|, buf.Length);
        }
      }
    }

    lemma SameRest(a: nat, b: nat, m: nat)
      requires m >= 1 && b < m && b <= a && (a - b) % m == 0
      ensures a % m == b
    {
      var q := (a - b) / m;
      assert a == m * q + b;
      DivModUnique(a, m, q, b);
    }

    lemma DifferentRests(p: nat, n: nat, m: nat)
      requires p < n < p + m
      ensures p % m != n % m
    {
      var k, r := p / m, p % m;
      assert p == m * k + r;
      if r + (n - p) < m {
        DivModUnique(n, m, k, r + (n - p));
      } else {
        assert n == m * (k + 1) + (r + (n - p) - m) by {
          assert m * (k + 1) == m * k + m;
        }
        DivModUnique(n, m, k + 1, r + (n - p) - m);
      }
    }

    /** Writes one byte of output. */
    method Put(c: Byte)
      requires Valid() && pos < end
      modifies this`pos, this`hist, buf
      ensures Valid() && hist == old(hist) + [c] && pos == old(pos) + 1
    {
      assert Shown(this, 0);
      NextSlot();
      ghost var before := buf[..];
      buf[pos] := c;
      pos := pos + 1;
      hist := hist + [c];
      if wrapping {
        RestStays(|hist| - 1, pos - 1, buf.Length);
      }
      assert Latest();
    }

    lemma RestStays(a: nat, b: nat, m: nat)
      requires m >= 1 && b <= a && (a - b) % m == 0
      ensures (a + 1 - (b + 1)) % m == 0
    {
    }

    /** The byte of output `dist` back. */
    method Back(dist: nat) returns (c: Byte)
      requires Valid() && 1 <= dist <= MAX_DIST && dist <= |hist|
      ensures c == hist[|hist| - dist]
    {
      assert Shown(this, 0);
      BackSlot(dist);
      c := buf[if wrapping then (pos - dist) % buf.Length else pos - dist];
    }

    lemma BackSlot(dist: nat)
      requires Valid() && 1 <= dist <= MAX_DIST && dist <= |hist|
      ensures Slot(|hist| - dist) == (if wrapping then (pos - dist) % buf.Length else pos - dist) < buf.Length
      ensures Oldest() <= |hist| - dist
    {
      assert Shown(this, 0);
      if wrapping {
        RestOfDifference(|hist|, pos, dist, buf.Length);
      }
    }

    lemma RestOfDifference(a: nat, b: nat, d: nat, m: nat)
      requires m >= 1 && b <= a && d <= a && (a - b) % m == 0
      ensures (a - d) % m == (b - d) % m
    {
      var q := (a - b) / m;
      assert a - b == m * q;
      var k, r := (b - d) / m, (b - d) % m;
      assert b - d == m * k + r;
      assert a - d == m * (k + q) + r by {
        assert m * (k + q) == m * k + m * q;
      }
      DivModUnique(a - d, m, k + q, r);
    }

    /** The next call: a full ring starts over at its beginning. */
    method NextCall(room: nat)
      requires Valid() && (wrapping || pos + room <= buf.Length)
      modifies this`pos, this`end
      ensures Valid() && hist == old(hist)
      ensures if wrapping then pos < end == buf.Length else pos == old(pos) && end == pos + room
    {
      assert Shown(this, 0);
      if wrapping {
        if pos == buf.Length {
          FullRing(|hist|, pos, buf.Length);
          pos := 0;
        }
      } else {
        end := pos + room;
      }
      assert Latest();
    }

    lemma FullRing(a: nat, b: nat, m: nat)
      requires m >= 1 && b == m && b <= a && (a - b) % m == 0
      ensures (a - 0) % m == 0
    {
      var q := (a - b) / m;
      assert a == m * (q + 1) by {
        assert m * (q + 1) == m * q + m;
      }
      DivModUnique(a, m, q + 1, 0);
    }

    /** The last `n` bytes of output, as they lie in the buffer. */
    method Latter(n: nat) returns (s: seq<Byte>)
      requires Valid() && n <= pos
      ensures n <= |hist| && s == hist[|hist| - n..]
    {
      Enough(n);
      s := buf[pos - n..pos];
      ghost var h := hist[|hist| - n..];
      forall k | 0 <= k < n ensures s[k] == h[k] {
        SlotBack(n - k);
      }
    }

    lemma Enough(n: nat)
      requires Valid() && n <= pos
      ensures n <= |hist|
    {
      assert Shown(this, 0);
    }

    lemma SlotBack(d: nat)
      requires Valid() && 1 <= d <= pos
      ensures d <= |hist| && buf[pos - d] == hist[|hist| - d]
    {
      assert Shown(this, 0);
      var p := |hist| - d;
      if wrapping {
        RestOfDifference(|hist|, pos, d, buf.Length);
        SmallRest(pos - d, buf.Length);
      }
      assert buf[Slot(p)] == hist[p];
    }

    lemma SmallRest(a: nat, m: nat)
      requires a < m
      ensures a % m == a
    {
    }

    // ---- Copying without looking back at the ring's end

    /** `src` is where the byte `dist` back is. */
    ghost predicate Source(src: nat, dist: nat)
      reads this
      requires wrapping ==> buf.Length >= 1
    {
      (1 <= dist <= MAX_DIST && dist <= |hist| && Slot(|hist| - dist) == src) == true
    }

    method CopyOne(src: nat, dist: nat, ghost more: bool)
      requires Valid() && Source(src, dist) && src < buf.Length && pos < end && (more ==> src + 1 < buf.Length)
      modifies this`pos, this`hist, buf
      ensures Valid() && hist == old(hist) + [old(hist)[|old(hist)| - dist]] && pos == old(pos) + 1
      ensures more ==> Source(src + 1, dist)
    {
      assert Shown(this, 0);
      BackSlot(dist);
      ghost var p := |hist| - dist;
      assert buf[Slot(p)] == hist[p];
      Put(buf[src]);
      if more && wrapping {
        NextRest(p, src, buf.Length);
      }
    }

    lemma NextRest(p: nat, src: nat, m: nat)
      requires m >= 1 && p % m == src && src + 1 < m
      ensures (p + 1) % m == src + 1
    {
      var q := p / m;
      assert p + 1 == m * q + (src + 1);
      DivModUnique(p + 1, m, q, src + 1);
    }

    /** `i` bytes of a match behind `start` are copied, `left` are still to come. */
    ghost predicate Copied(start: seq<Byte>, i: nat, src: nat, dist: nat, left: nat)
      reads this
      requires wrapping ==> buf.Length >= 1
    {
      (&& 1 <= dist <= |start| && hist == Copy(start, i, dist) && pos + left <= end && src + left <= buf.Length
       && (left > 0 ==> Source(src, dist))) == true
    }

    /** One byte of a match. */
    method CopyStep(src: nat, dist: nat, ghost start: seq<Byte>, ghost i: nat, ghost left: nat)
      requires Valid() && Copied(start, i, src, dist, left) && left >= 1
      modifies this`pos, this`hist, buf
      ensures Valid() && Copied(start, i + 1, src + 1, dist, left - 1) && pos == old(pos) + 1
    {
      CopySnoc(start, i, dist);
      CopyOne(src, dist, left > 1);
    }

    method CopyThree(src: nat, dist: nat, ghost start: seq<Byte>, ghost i: nat, ghost left: nat)
      requires Valid() && Copied(start, i, src, dist, left) && left >= 3
      modifies this`pos, this`hist, buf
      ensures Valid() && Copied(start, i + 3, src + 3, dist, left - 3) && pos == old(pos) + 3
    {
      CopyStep(src, dist, start, i, left);
      CopyStep(src + 1, dist, start, i + 1, left - 1);
      CopyStep(src + 2, dist, start, i + 2, left - 2);
    }

    method CopyRest(src: nat, dist: nat, ghost start: seq<Byte>, ghost i: nat, left: nat)
      requires Valid() && Copied(start, i, src, dist, left) && left < 3 && 1 <= dist <= |start|
      modifies this`pos, this`hist, buf
      ensures Valid() && hist == Copy(start, i + left, dist) && 1 <= dist <= |start| && pos == old(pos) + left
    {
      if left > 0 {
        CopyStep(src, dist, start, i, left);
        if left > 1 {
          CopyStep(src + 1, dist, start, i + 1, left - 1);
        }
      }
    }

    /** The fast copy of a match: three bytes at a time while no end is near. */
    method CopyFast(len: nat, dist: nat)
      requires Valid() && MIN_MATCH <= len && 1 <= dist <= MAX_DIST && dist <= |hist| && pos + len <= end
      requires Slot(|hist| - dist) + len <= end
      modifies this`pos, this`hist, buf
      ensures Valid() && hist == Copy(old(hist), len, dist) && pos == old(pos) + len
    {
      ghost var start, p := hist, pos;
      BackSlot(dist);
      var src: nat := if wrapping then (pos - dist) % buf.Length else pos - dist;
      var counter: nat := len;
      while counter > 2
        invariant counter <= len && Valid() && pos == p + (len - counter)
            && Copied(start, len - counter, src, dist, counter)
      {
        CopyThree(src, dist, start, len - counter, counter);
        src, counter := src + 3, counter - 3;
      }
      CopyRest(src, dist, start, len - counter, counter);
    }
  }

  lemma {:induction false} CopyTwice(out: seq<Byte>, a: nat, b: nat, dist: nat)
    requires 1 <= dist <= |out|
    ensures Copy(Copy(out, a, dist), b, dist) == Copy(out, a + b, dist)
    decreases a
  {
    if a > 0 {
      CopyTwice(out + [out[|out| - dist]], a - 1, b, dist);
    }
  }

  lemma CopySnoc(out: seq<Byte>, n: nat, dist: nat)
    requires 1 <= dist <= |out|
    ensures Copy(out, n + 1, dist) == Copy(out, n, dist) + [Copy(out, n, dist)[|out| + n - dist]]
  {
    CopyTwice(out, n, 1, dist);
    var mid := Copy(out, n, dist);
    assert Copy(mid, 1, dist) == Copy(mid + [mid[|mid| - dist]], 0, dist);
  }
}
