/**
 What a full flush is for: blocks behind it do not need what came before. Tokens whose
 distances stay behind a point expand, and their blocks decode, without the data before it.
 */
module Restart {
  import opened Bits
  import opened Tokens
  import opened InflateSpec
  import opened BlockBits
  import opened Stream
  import opened FlushBlock

  // ---- Tokens without the data before them

  lemma {:induction false} CopyBehind(before: seq<Byte>, out: seq<Byte>, len: nat, dist: nat)
    requires 1 <= dist <= |out|
    ensures Copy(before + out, len, dist) == before + Copy(out, len, dist)
    decreases len
  {
    if len != 0 {
      var c := out[|out| - dist];
      assert (before + out)[|before + out| - dist] == c;
      Regroup(before, out, [c]);
      CopyBehind(before, out + [c], len - 1, dist);
    }
  }

  lemma ApplyBehind(before: seq<Byte>, out: seq<Byte>, t: Token)
    requires Fits(t, |out|)
    ensures Fits(t, |before + out|) && Apply(before + out, t) == before + Apply(out, t)
  {
    match t
    case Literal(b) =>
      Regroup(before, out, [b]);
    case Match(len, dist) =>
      CopyBehind(before, out, len, dist);
  }

  lemma {:induction false} ExpandBehind(before: seq<Byte>, out: seq<Byte>, ts: seq<Token>)
    requires AllFit(ts, |out|)
    ensures AllFit(ts, |before + out|) && Expand(before + out, ts) == before + Expand(out, ts)
    decreases |ts|
  {
    if ts != [] {
      ApplyBehind(before, out, ts[0]);
      ExpandBehind(before, Apply(out, ts[0]), ts[1..]);
    }
  }

  // ---- Blocks without the blocks before them

  /** One block with what belongs behind it was added to `bits`, for tokens that stand for `data`. */
  ghost predicate Grew(bits: seq<bool>, bits': seq<bool>, flags: Flags, mode: FlushMode, ts: seq<Token>,
                       data: seq<Byte>) {
    (exists blk, at, inWindow :: GrewBy(blk, at, inWindow, bits, bits', flags, mode, ts, data)) == true
  }

  ghost predicate GrewBy(blk: seq<bool>, at: nat, inWindow: bool, bits: seq<bool>, bits': seq<bool>, flags: Flags,
                         mode: FlushMode, ts: seq<Token>, data: seq<Byte>) {
    (&& Chosen(flags, inWindow, mode.Finish?, at, ts, data, blk) && at % 8 == |bits| % 8
     && bits' == BitsAfter(bits, blk, mode)) == true
  }

  lemma IsGrown(blk: seq<bool>, at: nat, inWindow: bool, bits: seq<bool>, bits': seq<bool>, flags: Flags,
                mode: FlushMode, ts: seq<Token>, data: seq<Byte>)
    requires Chosen(flags, inWindow, mode.Finish?, at, ts, data, blk) && at % 8 == |bits| % 8
    requires bits' == BitsAfter(bits, blk, mode)
    ensures Grew(bits, bits', flags, mode, ts, data)
  {
    assert GrewBy(blk, at, inWindow, bits, bits', flags, mode, ts, data);
  }

  lemma GrownIsMarked(bits: seq<bool>, bits': seq<bool>, flags: Flags, mode: FlushMode, ts: seq<Token>, data: seq<Byte>)
    requires Grew(bits, bits', flags, mode, ts, data) && (mode.SyncFlush? || mode.FullFlush?)
    ensures Marked(bits')
  {
    var blk, at, inWindow :| GrewBy(blk, at, inWindow, bits, bits', flags, mode, ts, data);
    AfterIsMarked(bits, blk, mode);
  }

  /** Whatever form was chosen for a block, it reads as its tokens' data behind any output they can follow. */
  lemma ChosenReads(flags: Flags, inWindow: bool, final: bool, at: nat, ts: seq<Token>, data: seq<Byte>,
                    blk: seq<bool>, out: seq<Byte>)
    requires Chosen(flags, inWindow, final, at, ts, data, blk) && AllFit(ts, |out|) && Expand(out, ts) == out + data
    ensures BlockReads(at, blk, final, out, out + data)
  {
    assert Shown(blk, 0);
    if flags.forceRaw && inWindow {
      StoredReads(at, final, data, out);
    } else {
      var f :| ChosenOver(f, flags, inWindow, final, at, ts, data, blk);
      if inWindow && Expanded(at + 1, |FormBits(f, ts)|, TotalSize(ts)) {
        StoredReads(at, final, data, out);
      } else {
        CompressedReads(at, f, final, ts, out);
      }
    }
  }

  /** From bit `mark` on, the blocks by themselves read as `done` from `since` on. */
  ghost predicate Restartable(bits: seq<bool>, mark: nat, done: seq<Byte>, since: nat) {
    (mark <= |bits| && mark % 8 == 0 && since <= |done| && Reads(bits[mark..], done[since..])) == true
  }

  /** Everything can be read from a point with nothing behind it. */
  lemma RestartsHere(bits: seq<bool>, done: seq<Byte>)
    requires |bits| % 8 == 0
    ensures Restartable(bits, |bits|, done, |done|)
  {
    assert bits[|bits|..] == [] && done[|done|..] == [];
    NothingReads();
  }

  /** Tokens that do not reach back behind `since` stand for the same data without what is there. */
  lemma ShorterHistory(done: seq<Byte>, since: nat, ts: seq<Token>, data: seq<Byte>)
    requires since <= |done| && AllFit(ts, |done| - since) && AllFit(ts, |done|) && Expand(done, ts) == done + data
    ensures Expand(done[since..], ts) == done[since..] + data
  {
    var before, out := done[..since], done[since..];
    assert before + out == done;
    ExpandBehind(before, out, ts);
    var x := Expand(out, ts);
    assert before + x == before + (out + data);
    assert x == (before + x)[since..] == (before + (out + data))[since..] == out + data;
  }

  lemma SuffixPhase(n: nat, mark: nat)
    requires mark <= n && mark % 8 == 0
    ensures (n - mark) % 8 == n % 8
  {
  }

  /** The new block behind the last restart. */
  lemma NextBlock(bits: seq<bool>, mark: nat, done: seq<Byte>, since: nat, flags: Flags, inWindow: bool, final: bool,
                  at: nat, ts: seq<Token>, data: seq<Byte>, blk: seq<bool>)
    requires Restartable(bits, mark, done, since) && Chosen(flags, inWindow, final, at, ts, data, blk)
    requires at % 8 == |bits| % 8
    requires AllFit(ts, |done| - since) && AllFit(ts, |done|) && Expand(done, ts) == done + data
    ensures var b, out := bits[mark..], done[since..];
            if final then Ends(b + blk, out + data) else Reads(b + blk, out + data)
  {
    var b, out := bits[mark..], done[since..];
    ShorterHistory(done, since, ts, data);
    ChosenReads(flags, inWindow, final, at, ts, data, blk, out);
    SuffixPhase(|bits|, mark);
    SamePhase(at, |b|, blk, final, out, out + data);
    if final {
      LastBlock(b, blk, out, out + data);
    } else {
      OneMoreBlock(b, blk, out, out + data);
    }
  }

  /** An empty stored block behind it changes nothing. */
  lemma MarkerReads(s: seq<bool>, at: nat, data: seq<Byte>, empty: seq<Byte>)
    requires Reads(s, data) && at % 8 == |s| % 8 && empty == []
    ensures Reads(s + StoredBits(false, at, empty), data)
  {
    StoredReads(at, false, empty, data);
    assert data + empty == data;
    SamePhase(at, |s|, StoredBits(false, at, empty), false, data, data);
    OneMoreBlock(s, StoredBits(false, at, empty), data, data);
  }

  lemma SuffixJoins<T>(s: seq<T>, k: nat, a: seq<T>)
    requires k <= |s|
    ensures (s + a)[k..] == s[k..] + a
  {
  }

  /** A block keeps the stream readable from the restart on. */
  lemma RestartGrows(bits: seq<bool>, mark: nat, done: seq<Byte>, since: nat, bits': seq<bool>, flags: Flags,
                     mode: FlushMode, ts: seq<Token>, data: seq<Byte>)
    requires Restartable(bits, mark, done, since) && Grew(bits, bits', flags, mode, ts, data) && !mode.Finish?
    requires AllFit(ts, |done| - since) && AllFit(ts, |done|) && Expand(done, ts) == done + data
    ensures Restartable(bits', mark, done + data, since)
  {
    var blk, at, inWindow :| GrewBy(blk, at, inWindow, bits, bits', flags, mode, ts, data);
    NextBlock(bits, mark, done, since, flags, inWindow, false, at, ts, data, blk);
    SuffixJoins(bits, mark, blk);
    SuffixJoins(done, since, data);
    if !mode.NoFlush? {
      var s := bits + blk;
      SuffixPhase(|s|, mark);
      MarkerReads(s[mark..], |s|, (done + data)[since..], []);
      SuffixJoins(s, mark, StoredBits(false, |s|, []));
    }
  }

  /** The last block ends the stream that starts at the restart. */
  lemma RestartEnds(bits: seq<bool>, mark: nat, done: seq<Byte>, since: nat, bits': seq<bool>, flags: Flags,
                    ts: seq<Token>, data: seq<Byte>)
    requires Restartable(bits, mark, done, since) && Grew(bits, bits', flags, FlushMode.Finish, ts, data)
    requires AllFit(ts, |done| - since) && AllFit(ts, |done|) && Expand(done, ts) == done + data
    ensures mark <= |bits'| && since <= |done + data| && Ends(bits'[mark..], (done + data)[since..])
  {
    var blk, at, inWindow :| GrewBy(blk, at, inWindow, bits, bits', flags, FlushMode.Finish, ts, data);
    NextBlock(bits, mark, done, since, flags, inWindow, true, at, ts, data, blk);
    SuffixJoins(bits, mark, blk);
    SuffixJoins(done, since, data);
  }

  // ---- Tokens that stay behind a point

  lemma {:induction false} FitsSnoc(ts: seq<Token>, n: nat, t: Token)
    requires AllFit(ts, n) && Fits(t, n + TotalSize(ts))
    ensures AllFit(ts + [t], n)
    decreases |ts|
  {
    if ts == [] {
      assert ts + [t] == [t] && [t][1..] == [];
    } else {
      assert (ts + [t])[1..] == ts[1..] + [t];
      FitsSnoc(ts[1..], n + Size(ts[0]), t);
    }
  }
}
