/**
 A whole stream: blocks of any kind one after the other, each starting where the
 previous one ended.
 */
module Stream {
  import opened Bits
  import opened Tokens
  import opened InflateSpec
  import opened BlockBits

  /** With `at` bits before and `rest` behind, `b` makes a whole number of bytes. */
  predicate Whole(at: nat, b: seq<bool>, rest: seq<bool>) {
    (at + |b| + |rest|) % 8 == 0
  }

  /** Reading `b`, which starts at bit `at`, takes the output from `out` to `out'` and ends a block. */
  ghost predicate BlockReads(at: nat, b: seq<bool>, final: bool, out: seq<Byte>, out': seq<Byte>) {
    forall rest {:trigger Block(b + rest, out)} ::
      Whole(at, b, rest) ==> Block(b + rest, out) == EndBlock(final, rest, out')
  }

  /** A stream that starts with `s` has produced `out` and goes on with another block. */
  ghost predicate Reads(s: seq<bool>, out: seq<Byte>) {
    forall rest {:trigger Block(s + rest, [])} :: Whole(0, s, rest) ==> Block(s + rest, []) == Block(rest, out)
  }

  /** A stream that starts with `s` ends there, having produced `out`. */
  ghost predicate Ends(s: seq<bool>, out: seq<Byte>) {
    forall rest {:trigger Block(s + rest, [])} :: Whole(0, s, rest) ==> Block(s + rest, []) == Done(out, rest)
  }

  // ---- Single blocks

  lemma CompressedReads(at: nat, f: Form, final: bool, ts: seq<Token>, out: seq<Byte>)
    requires GoodForm(f, ts) && AllFit(ts, |out|)
    ensures BlockReads(at, [final] + FormBits(f, ts), final, out, Expand(out, ts))
  {
    forall rest: seq<bool>
      ensures Block([final] + FormBits(f, ts) + rest, out) == EndBlock(final, rest, Expand(out, ts))
    {
      FormDecodes(f, final, ts, rest, out);
    }
  }

  lemma RestIsWhole(at: nat, b: seq<bool>, rest: seq<bool>)
    requires (at + |b|) % 8 == 0 && Whole(at, b, rest)
    ensures |rest| % 8 == 0
  {
  }

  lemma StoredReads(at: nat, final: bool, bs: seq<Byte>, out: seq<Byte>)
    requires |bs| < 0x1_0000
    ensures BlockReads(at, StoredBits(final, at, bs), final, out, out + bs)
  {
    var b := StoredBits(final, at, bs);
    forall rest: seq<bool> | Whole(at, b, rest)
      ensures Block(b + rest, out) == EndBlock(final, rest, out + bs)
    {
      RestIsWhole(at, b, rest);
      StoredBlockDecodes(final, at, bs, rest, out);
    }
  }

  lemma WholePhase(at: nat, at': nat, b: seq<bool>, rest: seq<bool>)
    requires at % 8 == at' % 8
    ensures Whole(at, b, rest) <==> Whole(at', b, rest)
  {
    SamePhaseSum(at, at', |b| + |rest|);
  }

  lemma SamePhaseSum(x: nat, y: nat, k: nat)
    requires x % 8 == y % 8
    ensures (x + k) % 8 == (y + k) % 8
  {
  }

  /** Where in a byte a block starts is all that matters. */
  lemma SamePhase(at: nat, at': nat, b: seq<bool>, final: bool, out: seq<Byte>, out': seq<Byte>)
    requires BlockReads(at, b, final, out, out') && at % 8 == at' % 8
    ensures BlockReads(at', b, final, out, out')
  {
    forall rest: seq<bool> | Whole(at', b, rest)
      ensures Block(b + rest, out) == EndBlock(final, rest, out')
    {
      WholePhase(at, at', b, rest);
    }
  }

  // ---- Blocks one after the other

  lemma NothingReads()
    ensures Reads([], [])
  {
    forall rest: seq<bool> ensures Block([] + rest, []) == Block(rest, []) {
      assert [] + rest == rest;
    }
  }

  lemma WholeJoin(a: seq<bool>, b: seq<bool>, rest: seq<bool>)
    ensures Whole(|a|, b, rest) <==> Whole(0, a, b + rest)
    ensures Whole(|a|, b, rest) <==> Whole(0, a + b, rest)
  {
    assert |a| + |b| + |rest| == 0 + |a| + |b + rest| == 0 + |a + b| + |rest|;
  }

  lemma ReadOn(s: seq<bool>, b: seq<bool>, final: bool, out: seq<Byte>, out': seq<Byte>, rest: seq<bool>)
    requires Reads(s, out) && BlockReads(|s|, b, final, out, out') && Whole(0, s + b, rest)
    ensures Block(s + b + rest, []) == EndBlock(final, rest, out')
  {
    WholeJoin(s, b, rest);
    Regroup(s, b, rest);
    assert Block(s + (b + rest), []) == Block(b + rest, out);
  }

  lemma OneMoreBlock(s: seq<bool>, b: seq<bool>, out: seq<Byte>, out': seq<Byte>)
    requires Reads(s, out) && BlockReads(|s|, b, false, out, out')
    ensures Reads(s + b, out')
  {
    forall rest: seq<bool> | Whole(0, s + b, rest)
      ensures Block(s + b + rest, []) == Block(rest, out')
    {
      ReadOn(s, b, false, out, out', rest);
    }
  }

  lemma LastBlock(s: seq<bool>, b: seq<bool>, out: seq<Byte>, out': seq<Byte>)
    requires Reads(s, out) && BlockReads(|s|, b, true, out, out')
    ensures Ends(s + b, out')
  {
    forall rest: seq<bool> | Whole(0, s + b, rest)
      ensures Block(s + b + rest, []) == Done(out', rest)
    {
      ReadOn(s, b, true, out, out', rest);
    }
  }
}
