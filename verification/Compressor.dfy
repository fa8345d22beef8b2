/**
 The compressor: a lazy parser that turns the input into literals and matches
 (`tdefl_compress_normal`), and the calls that drive it (`tdefl_compress`).
 */
module Compressor {
  import opened Bits
  import opened Tokens
  import opened BlockBits
  import opened LzBuffer
  import opened FlushBlock
  import opened Restart
  import W = Window
  import opened Stream

  // ---- What the recorded tokens stand for

  /** Behind `done`, the tokens expand to the input up to position `n`; kept closed. */
  ghost predicate Lossless(input: seq<Byte>, done: seq<Byte>, ts: seq<Token>, n: nat) {
    (n <= |input| && forall k {:trigger Shown(ts, k)} :: Shown(ts, k) ==>
       AllFit(ts, |done|) && Expand(done, ts) == input[..n]) == true
  }

  lemma Expands(input: seq<Byte>, done: seq<Byte>, ts: seq<Token>, n: nat)
    requires Lossless(input, done, ts, n)
    ensures n <= |input| && AllFit(ts, |done|) && Expand(done, ts) == input[..n]
  {
    assert Shown(ts, 0);
  }

  lemma IsLossless(input: seq<Byte>, done: seq<Byte>, ts: seq<Token>, n: nat)
    requires n <= |input| && AllFit(ts, |done|) && Expand(done, ts) == input[..n]
    ensures Lossless(input, done, ts, n)
  {
  }

  lemma PrefixSnoc(input: seq<Byte>, n: nat)
    requires n < |input|
    ensures input[..n + 1] == input[..n] + [input[n]]
  {
  }

  lemma AddLiteral(input: seq<Byte>, done: seq<Byte>, ts: seq<Token>, n: nat)
    requires Lossless(input, done, ts, n) && n < |input|
    ensures Lossless(input, done, ts + [Literal(input[n])], n + 1)
  {
    Expands(input, done, ts, n);
    ExpandSnoc(done, ts, Literal(input[n]));
    PrefixSnoc(input, n);
    IsLossless(input, done, ts + [Literal(input[n])], n + 1);
  }

  /** A match whose bytes repeat earlier input expands to that input. */
  lemma AddMatch(input: seq<Byte>, done: seq<Byte>, ts: seq<Token>, n: nat, len: nat, dist: nat)
    requires Lossless(input, done, ts, n) && W.Repeats(input, n, len, dist)
    requires MIN_MATCH <= len <= MAX_MATCH && dist <= MAX_DIST
    ensures Lossless(input, done, ts + [Match(len, dist)], n + len)
  {
    Expands(input, done, ts, n);
    ExpandSnoc(done, ts, Match(len, dist));
    var full := input[..n + len];
    forall i | n <= i < |full| ensures full[i] == full[i - dist] {
      W.RepeatsAt(input, n, len, dist, i);
    }
    CopyRepeats(input[..n], len, dist, input[..n + len]);
    IsLossless(input, done, ts + [Match(len, dist)], n + len);
  }

  /** More input does not change what the tokens stand for. */
  lemma MoreInput(input: seq<Byte>, more: seq<Byte>, done: seq<Byte>, ts: seq<Token>, n: nat)
    requires Lossless(input, done, ts, n)
    ensures Lossless(input + more, done, ts, n)
  {
    Expands(input, done, ts, n);
    assert (input + more)[..n] == input[..n];
  }

  /** A pending match: found one position back, its first byte not yet recorded. */
  ghost predicate Deferred(input: seq<Byte>, p: nat, len: nat, dist: nat, lit: Byte) {
    (&& MIN_MATCH <= len < 128 && dist <= MAX_DIST && p < |input| && lit == input[p]
        && W.Repeats(input, p, len, dist)) == true
  }

  /** At position `lp`, everything up to `n` is recorded: all of it, or all but the first byte of a pending match. */
  ghost predicate Waiting(input: seq<Byte>, n: nat, lp: nat, savedLen: nat, savedDist: nat, savedLit: Byte) {
    (if savedLen == 0 then n == lp
     else n + 1 == lp && n + savedLen <= |input| && Deferred(input, n, savedLen, savedDist, savedLit)) == true
  }

  ghost predicate SliceByte(dict: seq<Byte>, p: nat, c: Byte)
    requires |dict| >= DICT_SIZE
  {
    dict[p % DICT_SIZE] == c
  }

  ghost predicate SliceAt(dict: seq<Byte>, at: nat, data: seq<Byte>)
    requires |dict| >= DICT_SIZE
  {
    forall i :: 0 <= i < |data| ==> SliceByte(dict, at + i, data[i])
  }

  lemma LiveSlice(dict: seq<Byte>, input: seq<Byte>, lo: nat, at: nat, n: nat)
    requires |dict| == W.DICT_SIZE + W.MIRROR && W.Live(dict, input, lo) && lo <= at <= n <= |input|
    ensures SliceAt(dict, at, input[at..n])
  {
    forall i | 0 <= i < n - at ensures SliceByte(dict, at + i, input[at..n][i]) {
      var p := at + i;
      assert W.SlotHolds(dict, input, p);
    }
  }

  /** A match that could be recorded at position `p`. */
  ghost predicate Usable(input: seq<Byte>, p: nat, len: nat, dist: nat) {
    (MIN_MATCH <= len <= MAX_MATCH && dist <= MAX_DIST && W.Repeats(input, p, len, dist)) == true
  }

  /** What the search comes up with: nothing (`dist` is 0), or a usable match. */
  ghost predicate Choice(input: seq<Byte>, p: nat, savedLen: nat, len: nat, dist: nat) {
    ((dist == 0 && (len <= savedLen || savedLen == 0)) || (dist > 0 && Usable(input, p, len, dist))) == true
  }

  /**
   The lazy rule. Pending is a match of `sl` bytes (none if 0) whose first byte is `sc`; found
   at the byte `c` is one of `len` bytes. A pending match is recorded only if it is at least as
   long; otherwise its first byte is, as a literal, and the longer one takes its place.
   */
  ghost predicate Lazy(flags: Flags, sl: nat, sd: nat, sc: Byte, len: nat, dist: nat, c: Byte,
                       ts: seq<Token>, ts': seq<Token>, move: nat, sl': nat, sd': nat, sc': Byte) {
    (if sl > 0 && len <= sl then ts' == ts + [Match(sl, sd)] && move == sl - 1 && sl' == 0
     else if sl > 0 && len >= 128 then ts' == ts + [Literal(sc)] + [Match(len, dist)] && move == len && sl' == 0
     else if sl > 0 then ts' == ts + [Literal(sc)] && move == 1 && Pending(len, dist, c, sl', sd', sc')
     else if dist == 0 then ts' == ts + [Literal(c)] && move == 1 && sl' == 0
     else if flags.greedy || flags.rleMatches || len >= 128 then ts' == ts + [Match(len, dist)] && move == len
         && sl' == 0
     else ts' == ts && move == 1 && Pending(len, dist, c, sl', sd', sc')) == true
  }

  /**
   One step of the parser: how far back a match may reach, the match pending before, the one
   found, how far to move, and the match pending then.
   */
  datatype ParserStep = ParserStep(base: nat, sl: nat, sd: nat, sc: Byte, len: nat, dist: nat, move: nat,
                                   sl': nat, sd': nat, sc': Byte)

  /**
   What a step makes of the tokens: the match found at `lp` is one, does not reach back too far,
   and is treated by the lazy rule; kept closed.
   */
  ghost predicate Parsed(flags: Flags, input: seq<Byte>, lp: nat, u: ParserStep, ts: seq<Token>, ts': seq<Token>) {
    forall k {:trigger Shown(ts, k)} :: Shown(ts, k) ==>
      && lp < |input| && u.move >= 1 && Choice(input, lp, u.sl, u.len, u.dist) && (u.dist == 0 || u.dist + u.base <= lp)
      && Lazy(flags, u.sl, u.sd, u.sc, u.len, u.dist, input[lp], ts, ts', u.move, u.sl', u.sd', u.sc')
  }

  ghost predicate EndsWith(u: ParserStep, base: nat, len: nat, dist: nat, lit: Byte) {
    (u.base == base && u.sl' == len && u.sd' == dist && u.sc' == lit) == true
  }

  ghost predicate Pending(len: nat, dist: nat, c: Byte, sl: nat, sd: nat, sc: Byte) {
    sl == len && sd == dist && sc == c
  }

  /** A block ends when the code buffer is nearly full, or when its tokens do not compress 31 KB well. */
  ghost predicate TimeToFlush(flags: Flags, ts: seq<Token>)
    requires AllStorable(ts)
  {
    || CodeSize(ts) > CODE_BUF_SIZE - 8
    || (TotalSize(ts) > 31 * 1024 && (CodeSize(ts) * 115 / 128 >= TotalSize(ts) || flags.forceRaw))
  }

  /** What becomes of the tokens `ts` and the output for `done` when it may be time for a block. */
  ghost predicate FlushedInTime(flags: Flags, ts: seq<Token>, done: seq<Byte>, all: seq<Byte>, ts': seq<Token>,
                                done': seq<Byte>) {
    (AllStorable(ts)
     && if TimeToFlush(flags, ts) then ts' == [] && done' == all else ts' == ts && done' == done) == true
  }

  lemma SavedIs(input: seq<Byte>, n: nat, lp: nat, savedLen: nat, savedDist: nat, savedLit: Byte)
    requires Waiting(input, n, lp, savedLen, savedDist, savedLit) && savedLen >= 1
    ensures Usable(input, n, savedLen, savedDist) && n + 1 == lp
    ensures n < |input| && savedLit == input[n] && n + savedLen <= |input|
  {
  }

  lemma NowPending(input: seq<Byte>, lp: nat, len: nat, dist: nat, c: Byte)
    requires Usable(input, lp, len, dist) && len < 128 && lp < |input| && c == input[lp]
    ensures Waiting(input, lp, lp + 1, len, dist, c)
  {
  }

  // ---- Restarts

  /**
   The last restart was when `since` bytes were in and `mark` bits out. From there on the output
   so far reads by itself, and neither the tokens nor a pending match reach back behind `base`,
   which is no earlier.
   */
  ghost predicate Kept(since: nat, mark: nat, base: nat, bits: seq<bool>, savedLen: nat, savedDist: nat,
                       done: seq<Byte>, ts: seq<Token>, n: nat) {
    (&& since <= base <= |done| && AllFit(ts, |done| - since) && (savedLen > 0 ==> savedDist + base <= n)
     && Restartable(bits, mark, done, since)) == true
  }

  lemma Counted(input: seq<Byte>, done: seq<Byte>, ts: seq<Token>, n: nat)
    requires Lossless(input, done, ts, n)
    ensures AllFit(ts, |done|) && |done| + TotalSize(ts) == n
  {
    Expands(input, done, ts, n);
    ExpandSize(done, ts);
  }

  /** One more token keeps behind the restart. */
  lemma KeptSnoc(since: nat, base: nat, done: seq<Byte>, ts: seq<Token>, n: nat, t: Token)
    requires since <= base <= |done| && AllFit(ts, |done| - since) && |done| + TotalSize(ts) == n
    requires t.Match? ==> MIN_MATCH <= t.len <= MAX_MATCH && 1 <= t.dist <= MAX_DIST && t.dist + base <= n
    ensures AllFit(ts + [t], |done| - since) && |done| + TotalSize(ts + [t]) == n + Size(t)
  {
    FitsSnoc(ts, |done| - since, t);
    TotalSizeSnoc(ts, t);
  }

  /** A step of the parser keeps behind the restart if the match it finds does. */
  lemma KeptParsed(flags: Flags, since: nat, mark: nat, bits: seq<bool>, done: seq<Byte>, input: seq<Byte>,
                   ts: seq<Token>, n: nat, lp: nat, u: ParserStep, ts': seq<Token>, n': nat)
    requires Kept(since, mark, u.base, bits, u.sl, u.sd, done, ts, n) && Lossless(input, done, ts, n)
    requires Waiting(input, n, lp, u.sl, u.sd, u.sc) && Lossless(input, done, ts', n')
    requires Parsed(flags, input, lp, u, ts, ts')
    ensures Kept(since, mark, u.base, bits, u.sl', u.sd', done, ts', n')
  {
    assert Shown(ts, 0);
    Counted(input, done, ts, n);
    Counted(input, done, ts', n');
    if u.sl > 0 && u.len <= u.sl {
      KeptSnoc(since, u.base, done, ts, n, Match(u.sl, u.sd));
    } else if u.sl > 0 {
      KeptSnoc(since, u.base, done, ts, n, Literal(u.sc));
      if u.len >= 128 {
        KeptSnoc(since, u.base, done, ts + [Literal(u.sc)], n + 1, Match(u.len, u.dist));
      }
    } else if u.dist == 0 {
      KeptSnoc(since, u.base, done, ts, n, Literal(input[lp]));
    } else {
      KeptSnoc(since, u.base, done, ts, n, Match(u.len, u.dist));
    }
  }

  /** What becomes of the output's bits when it may be time for a block. */
  ghost predicate BitsInTime(flags: Flags, ts: seq<Token>, bits: seq<bool>, bits': seq<bool>, data: seq<Byte>) {
    (AllStorable(ts)
     && if TimeToFlush(flags, ts) then Grew(bits, bits', flags, FlushMode.NoFlush, ts, data) else bits' == bits) == true
  }

  /** A block keeps the restart. */
  lemma KeptFlushed(since: nat, mark: nat, base: nat, bits: seq<bool>, sl: nat, sd: nat, done: seq<Byte>,
                    ts: seq<Token>, n: nat, input: seq<Byte>, bits': seq<bool>, flags: Flags, mode: FlushMode)
    requires Kept(since, mark, base, bits, sl, sd, done, ts, n) && Lossless(input, done, ts, n) && !mode.Finish?
    requires |done| <= n <= |input| && Grew(bits, bits', flags, mode, ts, input[|done|..n])
    ensures Kept(since, mark, base, bits', sl, sd, input[..n], [], n)
  {
    DataOf(input, done, ts, n);
    RestartGrows(bits, mark, done, since, bits', flags, mode, ts, input[|done|..n]);
  }

  /** The last block ends what can be read from the restart on. */
  lemma KeptToTheEnd(since: nat, mark: nat, base: nat, bits: seq<bool>, sl: nat, sd: nat, done: seq<Byte>,
                     ts: seq<Token>, input: seq<Byte>, bits': seq<bool>, flags: Flags)
    requires Kept(since, mark, base, bits, sl, sd, done, ts, |input|) && Lossless(input, done, ts, |input|)
    requires |done| <= |input| && Grew(bits, bits', flags, FlushMode.Finish, ts, input[|done|..|input|])
    ensures since <= |input| && mark <= |bits'| && mark % 8 == 0 && Ends(bits'[mark..], input[since..])
  {
    DataOf(input, done, ts, |input|);
    assert input[..|input|] == input;
    RestartEnds(bits, mark, done, since, bits', flags, ts, input[|done|..|input|]);
  }

  lemma DataOf(input: seq<Byte>, done: seq<Byte>, ts: seq<Token>, n: nat)
    requires Lossless(input, done, ts, n)
    ensures |done| <= n && AllFit(ts, |done|) && Expand(done, ts) == done + input[|done|..n] == input[..n]
  {
    Expands(input, done, ts, n);
    assert done == input[..n][..|done|];
  }

  lemma KeptInTime(since: nat, mark: nat, base: nat, bits: seq<bool>, sl: nat, sd: nat, done: seq<Byte>,
                   ts: seq<Token>, n: nat, input: seq<Byte>, bits': seq<bool>, flags: Flags, done': seq<Byte>,
                   ts': seq<Token>)
    requires Kept(since, mark, base, bits, sl, sd, done, ts, n) && Lossless(input, done, ts, n) && |done| <= n
    requires FlushedInTime(flags, ts, done, input[..n], ts', done')
    requires BitsInTime(flags, ts, bits, bits', input[|done|..n])
    ensures Kept(since, mark, base, bits', sl, sd, done', ts', n)
  {
    if TimeToFlush(flags, ts) {
      KeptFlushed(since, mark, base, bits, sl, sd, done, ts, n, input, bits', flags, FlushMode.NoFlush);
    }
  }

  ghost predicate Distinct(a: object, b: object, c: object) {
    a != b && a != c && b != c
  }

  class Compressor {
    const win: W.Window
    const out: Output
    const flags: Flags
    const probes0: nat
    const probes1: nat
    var dictPos: nat
    var savedDist: nat
    var savedLen: nat
    var savedLit: Byte
    var adler: nat
    // Where the last restart was, in the input and in the output's bits.
    ghost var since: nat
    ghost var mark: nat

    ghost predicate Linked() {
      (&& out.Shape() && win.Shape() && out.b.dict == win.dict && out.b.next == win.next && out.b.hash == win.hash
       && probes0 == 1 + (flags.maxProbes + 2) / 3 && probes1 == 1 + (flags.maxProbes / 4 + 2) / 3
       && out.b.PartsAre() && this as object !in out.b.parts && win as object !in out.b.parts
           && out as object !in out.b.parts
       && win.dict as object !in out.b.parts && win.next as object !in out.b.parts && win.hash as object !in out.b.parts
       && Distinct(this, win, out)) == true
    }

    constructor (win: W.Window, out: Output, flags: Flags)
      requires out.Shape() && win.Shape() && out.b.dict == win.dict && out.b.next == win.next && out.b.hash == win.hash
      requires out.b.PartsAre() && win as object !in out.b.parts && out as object !in out.b.parts
          && win as object != out as object
      requires win.dict as object !in out.b.parts && win.next as object !in out.b.parts
          && win.hash as object !in out.b.parts
      ensures Linked() && this.win == win && this.out == out && this.flags == flags
      ensures dictPos == 0 && savedLen == 0 && adler == 1 && since == 0 && mark == 0
    {
      this.win, this.out, this.flags := win, out, flags;
      probes0 := 1 + (flags.maxProbes + 2) / 3;
      probes1 := 1 + (flags.maxProbes / 4 + 2) / 3;
      dictPos, savedDist, savedLen, savedLit, adler := 0, 0, 0, 0, 1;
      since, mark := 0, 0;
    }

    /** Neither tokens nor a pending match need what was there before the last restart, nor do the blocks behind it. */
    ghost predicate Since(done: seq<Byte>, ts: seq<Token>, n: nat)
      reads this, win`base, out`bits
    {
      Kept(since, mark, win.base, out.bits, savedLen, savedDist, done, ts, n)
    }

    /** A new compressor has nothing to account for. */
    lemma Initial()
      requires Linked() && win.Valid() && win.Chained() && win.input == [] && win.lookaheadPos == 0 && adler == 1
      requires out.b.lz.Empty() && out.b.w.Valid() && out.b.w.bitsIn == 0
      requires out.blockIndex == 0 && out.sink == [] && out.bits == [] && out.data == []
      requires dictPos == 0 && savedLen == 0 && since == 0 && mark == 0 && win.base == 0
      ensures Inv([], [], [], 0, 0, 8) && Since([], [], 0)
    {
      NothingReads();
      RestartsHere([], []);
      assert OutputIs([]);
      NothingRecorded([], 0);
      Pack([], [], [], 0, 0, 8);
    }

    // ---- Choosing a match

    /** Where a search starts: what it finds must be longer than this. */
    ghost function AtLeast(): (n: nat)
      reads this
      ensures n >= 1
    {
      if savedLen != 0 then savedLen else MIN_MATCH - 1
    }

    /** What the search comes up with: the longest run of one byte, nothing at all, or what the hash chain has. */
    ghost predicate SearchResult(len: nat, dist: nat)
      reads this, win, win.next
    {
      (&& Linked()
       && if flags.rleMatches && !flags.forceRaw && win.dictSize != 0 then
            exists run: nat :: RunOf(run) && if run < MIN_MATCH then len == dist == 0 else len == run && dist == 1
          else if flags.rleMatches || flags.forceRaw then len == AtLeast() && dist == 0
          else win.Searched(win.lookaheadSize, if AtLeast() >= 32 then probes1 else probes0, 0, AtLeast(),
                            dist, len)) == true
    }

    /** How often the byte before the lookahead is repeated. */
    ghost predicate RunOf(run: nat)
      reads win
    {
      W.Repeats(win.input, win.lookaheadPos, run, 1)
      && W.NoLonger(win.input, win.lookaheadPos, 1, win.lookaheadSize, run)
    }

    /** Matches that are not worth it: short and far, reaching back to the first slot, or filtered out. */
    predicate Dropped(len: nat, dist: nat)
      reads win
    {
      (len == MIN_MATCH && dist >= 8 * 1024) || win.lookaheadPos % DICT_SIZE == dist
      || (flags.filterMatches && len <= 5)
    }

    /** The search result, or nothing if it is dropped. */
    ghost predicate Picked(len: nat, dist: nat)
      reads this, win, win.next
    {
      (exists l0, d0 :: PickedFrom(l0, d0, len, dist)) == true
    }

    ghost predicate PickedFrom(l0: nat, d0: nat, len: nat, dist: nat)
      reads this, win, win.next
    {
      SearchResult(l0, d0) && if Dropped(l0, d0) then len == dist == 0 else len == l0 && dist == d0
    }

    /** A step of the parser goes on from what is pending with what is found. */
    ghost predicate StepStarts(u: ParserStep)
      reads this, win, win.next
    {
      (u.sl == savedLen && u.sd == savedDist && u.sc == savedLit && Picked(u.len, u.dist)) == true
    }

    /** A match does not reach back behind the dictionary. */
    lemma PickedInReach(len: nat, dist: nat)
      requires win.Valid() && win.Chained() && Picked(len, dist)
      ensures dist == 0 || dist + win.base <= win.lookaheadPos
    {
      win.BaseIsBehind();
      var l0, d0 :| PickedFrom(l0, d0, len, dist);
      if !flags.rleMatches && !flags.forceRaw {
        win.FoundRepeats(win.lookaheadSize, if AtLeast() >= 32 then probes1 else probes0, 0, AtLeast(), d0, l0);
      }
    }

    method SearchMatch() returns (len: nat, dist: nat)
      requires Linked() && win.Valid() && win.lookaheadSize >= 1 && (savedLen == 0 || MIN_MATCH <= savedLen < 128)
      ensures Choice(win.input, win.lookaheadPos, savedLen, len, dist)
      ensures SearchResult(len, dist)
    {
      dist := 0;
      len := if savedLen != 0 then savedLen else MIN_MATCH - 1;
      if flags.rleMatches || flags.forceRaw {
        if win.dictSize != 0 && !flags.forceRaw {
          len := win.RunLength();
          assert RunOf(len);
          if len < MIN_MATCH {
            len := 0;
          } else {
            dist := 1;
          }
        }
      } else {
        var probes, least := if len >= 32 then probes1 else probes0, len;
        dist, len := win.FindMatch(win.lookaheadSize, probes, dist, len);
        win.FoundRepeats(win.lookaheadSize, probes, 0, least, dist, len);
      }
    }

    /** The search result, dropped when it is not worth a match. */
    method ChooseMatch() returns (len: nat, dist: nat)
      requires Linked() && win.Valid() && win.lookaheadSize >= 1 && (savedLen == 0 || MIN_MATCH <= savedLen < 128)
      ensures Choice(win.input, win.lookaheadPos, savedLen, len, dist)
      ensures Picked(len, dist)
    {
      len, dist := SearchMatch();
      ghost var l0, d0 := len, dist;
      if (len == MIN_MATCH && dist >= 8 * 1024) || win.lookaheadPos % DICT_SIZE == dist
          || (flags.filterMatches && len <= 5) {
        len, dist := 0, 0;
      }
      assert PickedFrom(l0, d0, len, dist);
    }

    // ---- Recording

    /** The tokens recorded since the last block. */
    ghost predicate Recorded(ts: seq<Token>, room: nat)
      reads out.b.lz, out.b.lz.buf, out.b.lz.litCount, out.b.lz.distCount
    {
      (out.b.lz.Valid() && out.b.lz.Tokens() == ts && out.b.lz.codePos + room <= CODE_BUF_SIZE) == true
    }

    method RecordLiteral(lit: Byte, ghost ts: seq<Token>, ghost room: nat, ghost input: seq<Byte>,
                         ghost done: seq<Byte>, ghost n: nat)
      returns (ghost ts': seq<Token>)
      requires Recorded(ts, room) && room >= 2
      requires Lossless(input, done, ts, n) && n < |input| && lit == input[n]
      modifies out.b.lz, out.b.lz.buf, out.b.lz.litCount, out.b.lz.distCount
      ensures Recorded(ts', room - 2) && Lossless(input, done, ts', n + 1) && ts' == ts + [Literal(lit)]
    {
      AddLiteral(input, done, ts, n);
      ts' := ts + [Literal(lit)];
      out.b.lz.RecordLiteral(lit);
    }

    method RecordMatch(len: nat, dist: nat, ghost ts: seq<Token>, ghost room: nat, ghost input: seq<Byte>,
                       ghost done: seq<Byte>, ghost n: nat)
      returns (ghost ts': seq<Token>)
      requires Recorded(ts, room) && room >= 4
      requires Lossless(input, done, ts, n) && W.Repeats(input, n, len, dist)
      requires MIN_MATCH <= len <= MAX_MATCH && dist <= MAX_DIST
      modifies out.b.lz, out.b.lz.buf, out.b.lz.litCount, out.b.lz.distCount
      ensures Recorded(ts', room - 4) && Lossless(input, done, ts', n + len) && ts' == ts + [Match(len, dist)]
    {
      AddMatch(input, done, ts, n, len, dist);
      ts' := ts + [Match(len, dist)];
      out.b.lz.RecordMatch(len, dist);
    }

    /** The pending match shrinks to a literal; the longer current one is recorded. */
    method TakeBoth(len: nat, dist: nat, ghost ts: seq<Token>, ghost input: seq<Byte>, ghost done: seq<Byte>,
                    ghost n: nat)
      returns (ghost ts': seq<Token>)
      requires Recorded(ts, 8) && Lossless(input, done, ts, n) && n < |input| && savedLit == input[n]
      requires Usable(input, n + 1, len, dist)
      modifies out.b.lz, out.b.lz.buf, out.b.lz.litCount, out.b.lz.distCount
      ensures Recorded(ts', 2) && Lossless(input, done, ts', n + 1 + len)
      ensures ts' == ts + [Literal(savedLit)] + [Match(len, dist)]
    {
      ghost var ts1, m := ts, n + 1;
      ts1 := RecordLiteral(savedLit, ts, 8, input, done, n);
      ts' := RecordMatch(len, dist, ts1, 6, input, done, m);
    }

    /** The current match is longer than the pending one. */
    method TakeLonger(len: nat, dist: nat, c: Byte, ghost ts: seq<Token>, ghost input: seq<Byte>,
                      ghost done: seq<Byte>, ghost n: nat)
      returns (lenToMove: nat, newLen: nat, newDist: nat, newLit: Byte, ghost ts': seq<Token>, ghost n': nat)
      requires Recorded(ts, 8) && Usable(input, n + 1, len, dist) && n + 1 < |input| && c == input[n + 1]
      requires Lossless(input, done, ts, n) && savedLit == input[n] && 1 <= savedLen < len
      modifies out.b.lz, out.b.lz.buf, out.b.lz.litCount, out.b.lz.distCount
      ensures Recorded(ts', 2) && 1 <= lenToMove && n + 1 + lenToMove <= |input|
      ensures Lazy(flags, savedLen, savedDist, savedLit, len, dist, c, ts, ts', lenToMove, newLen, newDist, newLit)
      ensures Lossless(input, done, ts', n') && Waiting(input, n', n + 1 + lenToMove, newLen, newDist, newLit)
    {
      if len >= 128 {
        ts' := TakeBoth(len, dist, ts, input, done, n);
        lenToMove, newLen, newDist, newLit, n' := len, 0, savedDist, savedLit, n + 1 + len;
      } else {
        ts' := RecordLiteral(savedLit, ts, 8, input, done, n);
        lenToMove, newLen, newDist, newLit, n' := 1, len, dist, c, n + 1;
        NowPending(input, n + 1, len, dist, c);
      }
    }

    /** A match was pending: how far to move, and the match now pending. */
    method RecordAfterSaved(len: nat, dist: nat, c: Byte, ghost ts: seq<Token>, ghost input: seq<Byte>,
                            ghost done: seq<Byte>, ghost n: nat, ghost lp: nat)
      returns (lenToMove: nat, newLen: nat, newDist: nat, newLit: Byte, ghost ts': seq<Token>, ghost n': nat)
      requires Recorded(ts, 8) && Choice(input, lp, savedLen, len, dist) && savedLen >= 1 && lp < |input|
          && c == input[lp]
      requires Lossless(input, done, ts, n) && Waiting(input, n, lp, savedLen, savedDist, savedLit)
      modifies out.b.lz, out.b.lz.buf, out.b.lz.litCount, out.b.lz.distCount
      ensures Recorded(ts', 2) && 1 <= lenToMove && lp + lenToMove <= |input|
      ensures Lazy(flags, savedLen, savedDist, savedLit, len, dist, c, ts, ts', lenToMove, newLen, newDist, newLit)
      ensures Lossless(input, done, ts', n') && Waiting(input, n', lp + lenToMove, newLen, newDist, newLit)
    {
      SavedIs(input, n, lp, savedLen, savedDist, savedLit);
      if len > savedLen {
        lenToMove, newLen, newDist, newLit, ts', n' := TakeLonger(len, dist, c, ts, input, done, n);
      } else {
        ts' := RecordMatch(savedLen, savedDist, ts, 8, input, done, n);
        lenToMove, newLen, newDist, newLit, n' := savedLen - 1, 0, savedDist, savedLit, n + savedLen;
      }
    }

    /** No match was pending. */
    method RecordFresh(len: nat, dist: nat, c: Byte, ghost ts: seq<Token>, ghost input: seq<Byte>,
                       ghost done: seq<Byte>, ghost lp: nat)
      returns (lenToMove: nat, newLen: nat, newDist: nat, newLit: Byte, ghost ts': seq<Token>, ghost n': nat)
      requires Recorded(ts, 8) && Choice(input, lp, 0, len, dist) && lp < |input| && c == input[lp]
      requires Lossless(input, done, ts, lp) && savedLen == 0
      modifies out.b.lz, out.b.lz.buf, out.b.lz.litCount, out.b.lz.distCount
      ensures Recorded(ts', 2) && 1 <= lenToMove && lp + lenToMove <= |input|
      ensures Lazy(flags, savedLen, savedDist, savedLit, len, dist, c, ts, ts', lenToMove, newLen, newDist, newLit)
      ensures Lossless(input, done, ts', n') && Waiting(input, n', lp + lenToMove, newLen, newDist, newLit)
    {
      lenToMove, newLen, newDist, newLit := 1, 0, savedDist, savedLit;
      if dist == 0 {
        ts' := RecordLiteral(c, ts, 8, input, done, lp);
        n' := lp + 1;
      } else if flags.greedy || flags.rleMatches || len >= 128 {
        ts' := RecordMatch(len, dist, ts, 8, input, done, lp);
        lenToMove, n' := len, lp + len;
      } else {
        newLit, newDist, newLen := c, dist, len;
        ts', n' := ts, lp;
        NowPending(input, lp, len, dist, c);
      }
    }

    /** The lazy parsing decision. */
    method Record(len: nat, dist: nat, c: Byte, ghost ts: seq<Token>, ghost input: seq<Byte>, ghost done: seq<Byte>,
                  ghost n: nat, ghost lp: nat)
      returns (lenToMove: nat, ghost ts': seq<Token>, ghost n': nat)
      requires Recorded(ts, 8) && Choice(input, lp, savedLen, len, dist) && lp < |input| && c == input[lp]
      requires Lossless(input, done, ts, n) && Waiting(input, n, lp, savedLen, savedDist, savedLit)
      modifies this`savedLen, this`savedDist, this`savedLit, out.b.lz, out.b.lz.buf, out.b.lz.litCount,
          out.b.lz.distCount
      ensures Recorded(ts', 2) && 1 <= lenToMove && lp + lenToMove <= |input|
      ensures Lossless(input, done, ts', n') && Waiting(input, n', lp + lenToMove, savedLen, savedDist, savedLit)
      ensures Lazy(flags, old(savedLen), old(savedDist), old(savedLit), len, dist, c, ts, ts', lenToMove,
                   savedLen, savedDist, savedLit)
    {
      var newLen, newDist, newLit;
      if savedLen != 0 {
        lenToMove, newLen, newDist, newLit, ts', n' := RecordAfterSaved(len, dist, c, ts, input, done, n, lp);
      } else {
        lenToMove, newLen, newDist, newLit, ts', n' := RecordFresh(len, dist, c, ts, input, done, lp);
      }
      SetSaved(newLen, newDist, newLit, ts');
    }

    method SetSaved(len: nat, dist: nat, lit: Byte, ghost ts: seq<Token>)
      requires Recorded(ts, 2)
      modifies this`savedLen, this`savedDist, this`savedLit
      ensures savedLen == len && savedDist == dist && savedLit == lit && Recorded(ts, 2)
    {
      savedLen, savedDist, savedLit := len, dist, lit;
    }

    // ---- The parsing loop

    /** The recorded tokens and the pending match account for the input up to the current position. */
    ghost predicate Accounted(input: seq<Byte>, lp: nat, done: seq<Byte>, ts: seq<Token>, n: nat)
      reads this`dictPos, this`savedLen, this`savedDist, this`savedLit
    {
      (dictPos == |done| && Lossless(input, done, ts, n)
          && Waiting(input, n, lp, savedLen, savedDist, savedLit)) == true
    }

    lemma AccountedMore(input: seq<Byte>, more: seq<Byte>, lp: nat, done: seq<Byte>, ts: seq<Token>, n: nat)
      requires Accounted(input, lp, done, ts, n)
      ensures Accounted(input + more, lp, done, ts, n)
    {
      MoreInput(input, more, done, ts, n);
      if savedLen != 0 {
        assert (input + more)[n..n + savedLen] == input[n..n + savedLen];
        assert (input + more)[n - savedDist..n - savedDist + savedLen] ==
            input[n - savedDist..n - savedDist + savedLen];
      }
    }

    /** The match to consider, and the byte at the current position. */
    method Look(ghost input: seq<Byte>, ghost lp: nat, ghost done: seq<Byte>, ghost ts: seq<Token>, ghost n: nat)
      returns (len: nat, dist: nat, c: Byte)
      requires Linked() && win.lookaheadSize >= 1 && WindowIs(input, lp)
      requires Accounted(input, lp, done, ts, n)
      ensures Choice(input, lp, savedLen, len, dist) && lp < |input| && c == input[lp] && Picked(len, dist)
      ensures dist == 0 || dist + win.base <= lp
    {
      len, dist := ChooseMatch();
      PickedInReach(len, dist);
      c := win.NextByte();
    }

    method RecordStep(len: nat, dist: nat, c: Byte, ghost ts: seq<Token>, ghost input: seq<Byte>,
                      ghost done: seq<Byte>, ghost n: nat, ghost lp: nat)
      returns (lenToMove: nat, ghost ts': seq<Token>, ghost n': nat)
      requires Recorded(ts, 8) && Choice(input, lp, savedLen, len, dist) && lp < |input| && c == input[lp]
      requires Accounted(input, lp, done, ts, n)
      modifies this`savedLen, this`savedDist, this`savedLit, out.b.lz, out.b.lz.buf, out.b.lz.litCount,
          out.b.lz.distCount
      ensures Recorded(ts', 2) && 1 <= lenToMove && lp + lenToMove <= |input|
      ensures Accounted(input, lp + lenToMove, done, ts', n')
      ensures Lazy(flags, old(savedLen), old(savedDist), old(savedLit), len, dist, c, ts, ts', lenToMove,
                   savedLen, savedDist, savedLit)
    {
      lenToMove, ts', n' := Record(len, dist, c, ts, input, done, n, lp);
    }

    // ---- Flushing

    /** The output so far is that of `done`. */
    ghost predicate OutputIs(done: seq<Byte>)
      reads out, out.b.w, out.b.w.out
    {
      (out.StreamOk(flags) && out.data == done) == true
    }

    /** Bytes since the last block are in the dictionary as long as it reaches back that far. */
    lemma StillInWindow(ts: seq<Token>, input: seq<Byte>, done: seq<Byte>, n: nat, lp: nat)
      requires Linked() && WindowIs(input, lp) && n <= lp
      requires dictPos == |done| && Lossless(input, done, ts, n) && lp - dictPos <= win.dictSize
      ensures AllFit(ts, |done|)
      ensures out.InWindow(dictPos, Expand(done, ts)[|done|..])
    {
      Expands(input, done, ts, n);
      var data := Expand(done, ts)[|done|..];
      assert data == input[dictPos..n];
      LiveSlice(win.dict[..], input, lp - win.dictSize, dictPos, n);
      DictHolds(dictPos, data);
    }

    lemma DictHolds(at: nat, data: seq<Byte>)
      requires Linked() && |data| < 0x1_0000 && SliceAt(win.dict[..], at, data)
      ensures out.InWindow(at, data)
    {
      forall i | 0 <= i < |data| ensures out.b.dict[(at + i) % DICT_SIZE] == data[i] {
        assert SliceByte(win.dict[..], at + i, data[i]);
      }
    }

    lemma RecordedTotal(ts: seq<Token>, room: nat, input: seq<Byte>, done: seq<Byte>, n: nat)
      requires Recorded(ts, room) && Lossless(input, done, ts, n)
      ensures |done| + out.b.lz.totalBytes == n && AllFit(ts, |done|) && Expand(done, ts) == input[..n]
      ensures out.b.lz.Valid() && out.b.lz.Tokens() == ts
    {
      Expands(input, done, ts, n);
      ExpandSize(done, ts);
    }

    lemma NothingRecorded(input: seq<Byte>, n: nat)
      requires n <= |input|
      ensures Lossless(input, input[..n], [], n)
    {
    }

    lemma WaitingBounds(input: seq<Byte>, n: nat, lp: nat, l: nat, d: nat, c: Byte)
      requires Waiting(input, n, lp, l, d, c)
      ensures n <= lp <= n + 1
    {
    }

    /** What `FlushBlock` asks for. */
    lemma FlushNeeds(ts: seq<Token>, room: nat, input: seq<Byte>, done: seq<Byte>, n: nat, lp: nat)
      requires Linked() && WindowIs(input, lp)
      requires Recorded(ts, room) && Accounted(input, lp, done, ts, n)
      ensures out.b.lz.Valid() && ts == out.b.lz.Tokens() && AllFit(ts, |done|) && dictPos <= lp && n <= |input|
      ensures Expand(done, ts) == input[..n] && dictPos + out.b.lz.totalBytes == n
      ensures lp - dictPos <= win.dictSize ==> out.InWindow(dictPos, Expand(done, ts)[|done|..])
    {
      RecordedTotal(ts, room, input, done, n);
      WaitingBounds(input, n, lp, savedLen, savedDist, savedLit);
      if lp - dictPos <= win.dictSize {
        StillInWindow(ts, input, done, n, lp);
      }
    }

    /** The bytes that a block written now stands for. */
    lemma BlockData(ts: seq<Token>, room: nat, input: seq<Byte>, done: seq<Byte>, n: nat, lp: nat)
      requires Noted(input, lp, done, ts, n, room)
      ensures |done| <= n <= |input| && AllFit(ts, |done|) && Expand(done, ts)[|done|..] == input[|done|..n]
    {
      DataOf(input, done, ts, n);
    }

    /** The pending bits are those of the blocks that do not fill a byte. */
    lemma BitsPhase(done: seq<Byte>)
      requires OutputIs(done)
      ensures (out.b.w.bitsIn + |Leader(flags, out.blockIndex)|) % 8 == |out.bits| % 8
    {
      SamePhaseSum(out.b.w.bitsIn, out.b.w.bitsIn + |Leader(flags, out.blockIndex)|, 0);
      SinkPhase(out.sink, ToBits(out.b.w.buffer, out.b.w.bitsIn), StreamHeader(flags, out.blockIndex), out.bits);
    }

    /** Writes the recorded tokens as a block and starts recording afresh. */
    method FlushTokens(mode: FlushMode, ghost ts: seq<Token>, ghost room: nat, ghost input: seq<Byte>,
                       ghost done: seq<Byte>, ghost n: nat, ghost lp: nat)
      returns (next: nat)
      requires Linked() && WindowIs(input, lp)
      requires Noted(input, lp, done, ts, n, room)
      modifies out, out.b.parts
      ensures out.b.lz.Empty() && next == n <= |input| && out.After(mode, flags, adler, input[..n])
      ensures !mode.NoFlush? ==> out.b.w.bitsIn == 0
      ensures mode.SyncFlush? || mode.FullFlush? ==> Marked(out.bits)
      ensures |done| <= n && Grew(old(out.bits), out.bits, flags, mode, ts, input[|done|..n])
    {
      FlushNeeds(ts, room, input, done, n, lp);
      BlockData(ts, room, input, done, n, lp);
      ghost var bits0, data := out.bits, Expand(done, ts)[|done|..];
      next := WriteBlock(mode, ts, done, lp, data);
      if mode.SyncFlush? || mode.FullFlush? {
        GrownIsMarked(bits0, out.bits, flags, mode, ts, data);
      }
    }

    method WriteBlock(mode: FlushMode, ghost ts: seq<Token>, ghost done: seq<Byte>, ghost lp: nat,
                      ghost data: seq<Byte>)
      returns (next: nat)
      requires Linked() && OutputIs(done) && adler < 0x1_0000_0000 && lp == win.lookaheadPos && dictPos <= lp
      requires out.b.lz.Valid() && ts == out.b.lz.Tokens() && AllFit(ts, |done|) && data == Expand(done, ts)[|done|..]
      requires lp - dictPos <= win.dictSize ==> out.InWindow(dictPos, data)
      modifies out, out.b.parts
      ensures out.b.lz.Empty() && next == dictPos + old(out.b.lz.totalBytes)
      ensures out.After(mode, flags, adler, Expand(done, ts))
      ensures !mode.NoFlush? ==> out.b.w.bitsIn == 0
      ensures Grew(old(out.bits), out.bits, flags, mode, ts, data)
    {
      BitsPhase(done);
      ghost var blk, at, bits0, inWindow := [], 0, out.bits, lp - dictPos <= win.dictSize;
      next, blk, at := out.FlushBlock(mode, flags, win.lookaheadPos, dictPos, win.dictSize, adler, ts);
      IsGrown(blk, at, inWindow, bits0, out.bits, flags, mode, ts, data);
    }

    /** A flush after which compression goes on. */
    method FlushNow(mode: FlushMode, ghost ts: seq<Token>, ghost room: nat, ghost input: seq<Byte>,
                    ghost done: seq<Byte>, ghost n: nat, ghost lp: nat)
      requires Linked() && WindowIs(input, lp) && !mode.Finish?
      requires Noted(input, lp, done, ts, n, room)
      modifies this`dictPos, out, out.b.parts
      ensures n <= |input| && Noted(input, lp, input[..n], [], n, 8) && (mode.NoFlush? || AtByte())
      ensures mode.SyncFlush? || mode.FullFlush? ==> Marked(out.bits)
      ensures |done| <= n && Grew(old(out.bits), out.bits, flags, mode, ts, input[|done|..n])
    {
      AccountedAnew(input, lp, done, ts, n);
      var next;
      next := FlushTokens(mode, ts, room, input, done, n, lp);
      SetDictPos(mode, next, input[..n]);
      NotedAnew(input, lp, n);
    }

    /** The output ends with a whole byte. */
    ghost predicate AtByte()
      reads out, out.b.w
    {
      (out.b.w.bitsIn == 0 && out.blockIndex > 0) == true
    }

    lemma AccountedAnew(input: seq<Byte>, lp: nat, done: seq<Byte>, ts: seq<Token>, n: nat)
      requires Accounted(input, lp, done, ts, n)
      ensures n <= |input| && Lossless(input, input[..n], [], n) && Waiting(input, n, lp, savedLen, savedDist, savedLit)
    {
      NothingRecorded(input, n);
    }

    method SetDictPos(mode: FlushMode, next: nat, ghost done: seq<Byte>)
      requires out.b.lz.Empty() && adler < 0x1_0000_0000 && out.After(mode, flags, adler, done) && !mode.Finish?
      requires mode.NoFlush? || out.b.w.bitsIn == 0
      modifies this`dictPos
      ensures dictPos == next && adler < 0x1_0000_0000 && OutputIs(done)
      ensures Recorded([], 8) && (mode.NoFlush? || AtByte())
    {
      OutputOnly(mode, done);
      dictPos := next;
    }

    lemma OutputOnly(mode: FlushMode, done: seq<Byte>)
      requires out.b.lz.Empty() && adler < 0x1_0000_0000 && out.After(mode, flags, adler, done) && !mode.Finish?
      ensures OutputIs(done) && Recorded([], 8) && out.blockIndex > 0
    {
    }

    lemma NotedAnew(input: seq<Byte>, lp: nat, n: nat)
      requires adler < 0x1_0000_0000 && n <= |input| && dictPos == n && Recorded([], 8) && OutputIs(input[..n])
      requires Lossless(input, input[..n], [], n) && Waiting(input, n, lp, savedLen, savedDist, savedLit)
      ensures Noted(input, lp, input[..n], [], n, 8)
    {
    }

    /** Writes a block when the code buffer is full or the tokens do not compress well. */
    method FlushIfFull(ghost ts: seq<Token>, ghost input: seq<Byte>, ghost done: seq<Byte>, ghost n: nat, ghost lp: nat)
      returns (ghost ts': seq<Token>, ghost done': seq<Byte>)
      requires Linked() && WindowIs(input, lp)
      requires Noted(input, lp, done, ts, n, 2)
      modifies this`dictPos, out, out.b.parts
      ensures Noted(input, lp, done', ts', n, 8) && n <= |input|
      ensures FlushedInTime(flags, ts, done, input[..n], ts', done')
      ensures |done| <= n && BitsInTime(flags, ts, old(out.bits), out.bits, input[|done|..n])
    {
      BlockData(ts, 2, input, done, n, lp);
      ts', done' := ts, done;
      out.b.lz.CodeSizeIs();
      if out.b.lz.codePos > CODE_BUF_SIZE - 8
         || (out.b.lz.totalBytes > 31 * 1024
             && (out.b.lz.codePos * 115 / 128 >= out.b.lz.totalBytes || flags.forceRaw)) {
        FlushNow(FlushMode.NoFlush, ts, 2, input, done, n, lp);
        ts', done' := [], input[..n];
      }
    }

    // ---- The loop

    /** Input taken in, input recorded, output written: nothing is lost in between. */
    ghost predicate Inv(input: seq<Byte>, done: seq<Byte>, ts: seq<Token>, n: nat, lp: nat, room: nat)
      reads this, win, win.dict, win.next, win.hash, out, out.b.w, out.b.w.out, out.b.lz, out.b.lz.buf,
          out.b.lz.litCount,
          out.b.lz.distCount
    {
      forall k {:trigger Shown(win, k)} :: Shown(win, k) ==>
        (Linked() && WindowIs(input, lp) && Noted(input, lp, done, ts, n, room)) == true
    }

    /** `Linked`, kept closed. */
    ghost predicate Tied() {
      forall k {:trigger Shown(out, k)} :: Shown(out, k) ==> Linked()
    }

    lemma Tie()
      requires Linked()
      ensures Tied()
    {
    }

    lemma Untie()
      requires Tied()
      ensures Linked()
    {
      assert Shown(out, 0);
    }

    /** The compressor's own fields are not among what its parts change. */
    lemma OwnFields()
      requires Tied()
      ensures this as object !in out.b.parts && this as object != win as object && this as object != out as object
      ensures this as object != win.dict as object && this as object != win.next as object
          && this as object != win.hash as object
    {
      assert Shown(out, 0);
    }

    lemma ReadParts()
      requires Tied()
      ensures out.b.w as object in out.b.parts && out.b.w.out as object in out.b.parts
      ensures out.b.lz as object in out.b.parts && out.b.lz.buf as object in out.b.parts
      ensures out.b.lz.litCount as object in out.b.parts && out.b.lz.distCount as object in out.b.parts
    {
      assert Shown(out, 0) && Shown(out.b, 0);
    }

    lemma RecordingParts()
      requires Linked()
      ensures out.b.lz as object in out.b.parts && out.b.lz.buf as object in out.b.parts
      ensures out.b.lz.litCount as object in out.b.parts && out.b.lz.distCount as object in out.b.parts
    {
      assert Shown(out.b, 0);
    }

    lemma Pack(input: seq<Byte>, done: seq<Byte>, ts: seq<Token>, n: nat, lp: nat, room: nat)
      requires Linked() && WindowIs(input, lp)
      requires Noted(input, lp, done, ts, n, room)
      ensures Inv(input, done, ts, n, lp, room)
    {
    }

    lemma Unpack(input: seq<Byte>, done: seq<Byte>, ts: seq<Token>, n: nat, lp: nat, room: nat)
      requires Inv(input, done, ts, n, lp, room)
      ensures Linked() && WindowIs(input, lp)
      ensures Noted(input, lp, done, ts, n, room)
      ensures win.lookaheadSize + lp == |input|
    {
      assert Shown(win, 0);
    }

    /** Takes more input in. */
    method TakeIn(src: seq<Byte>, at: nat, ghost input: seq<Byte>, ghost done: seq<Byte>, ghost ts: seq<Token>,
                  ghost n: nat, ghost lp: nat)
      returns (at': nat, ghost input': seq<Byte>)
      requires Inv(input, done, ts, n, lp, 8) && at <= |src|
      modifies win, win.dict, win.next, win.hash
      ensures Inv(input', done, ts, n, lp, 8) && at <= at' <= |src| && input' == input + src[at..at']
      ensures win.base == old(win.base)
      ensures win.lookaheadSize == |input'| - lp <= MAX_MATCH && (at' < |src| ==> win.lookaheadSize == MAX_MATCH)
    {
      Unpack(input, done, ts, n, lp, 8);
      at' := FillOnly(src, at, input, ts, done, lp);
      input' := input + src[at..at'];
      AccountedMore(input, src[at..at'], lp, done, ts, n);
      Pack(input', done, ts, n, lp, 8);
    }

    method FillOnly(src: seq<Byte>, at: nat, ghost input: seq<Byte>, ghost ts: seq<Token>, ghost done: seq<Byte>,
                    ghost lp: nat) returns (at': nat)
      requires Linked() && WindowIs(input, lp) && at <= |src|
      requires Recorded(ts, 8) && OutputIs(done)
      modifies win, win.dict, win.next, win.hash
      ensures at <= at' <= |src| && WindowIs(input + src[at..at'], lp)
      ensures win.base == old(win.base)
      ensures win.lookaheadSize == |input| + (at' - at) - lp <= MAX_MATCH
          && (at' < |src| ==> win.lookaheadSize == MAX_MATCH)
      ensures Recorded(ts, 8) && OutputIs(done)
    {
      WindowApart(win.dict);
      WindowApart(win.next);
      WindowApart(win.hash);
      at' := win.Fill(src, at);
    }

    method ParseAt(ghost input: seq<Byte>, ghost done: seq<Byte>, ghost ts: seq<Token>, ghost n: nat, ghost lp: nat)
      returns (ghost ts': seq<Token>, ghost n': nat, ghost lp': nat, ghost u: ParserStep)
      requires Tied() && Linked() && Inv(input, done, ts, n, lp, 8) && win.lookaheadSize >= 1
      modifies this`savedLen, this`savedDist, this`savedLit, win`lookaheadPos, win`lookaheadSize, win`dictSize
      modifies out.b.lz, out.b.lz.buf, out.b.lz.litCount, out.b.lz.distCount
      ensures Inv(input, done, ts', n', lp', 2) && old(StepStarts(u))
      ensures Parsed(flags, input, lp, u, ts, ts') && lp' == lp + u.move
      ensures EndsWith(u, win.base, savedLen, savedDist, savedLit)
    {
      Unpack(input, done, ts, n, lp, 8);
      ts', n', lp', u := ParseFramed(input, done, ts, n, lp);
      Pack(input, done, ts', n', lp', 2);
    }

    method ParseFramed(ghost input: seq<Byte>, ghost done: seq<Byte>, ghost ts: seq<Token>, ghost n: nat, ghost lp: nat)
      returns (ghost ts': seq<Token>, ghost n': nat, ghost lp': nat, ghost u: ParserStep)
      requires Tied() && win.lookaheadSize >= 1 && WindowIs(input, lp) && Noted(input, lp, done, ts, n, 8)
      modifies this`savedLen, this`savedDist, this`savedLit, win`lookaheadPos, win`lookaheadSize, win`dictSize
      modifies out.b.lz, out.b.lz.buf, out.b.lz.litCount, out.b.lz.distCount
      ensures WindowIs(input, lp') && Noted(input, lp', done, ts', n', 2) && old(StepStarts(u))
      ensures Parsed(flags, input, lp, u, ts, ts') && lp' == lp + u.move
      ensures EndsWith(u, win.base, savedLen, savedDist, savedLit)
    {
      var lenToMove;
      lenToMove, ts', n', u := RecordNext(input, done, ts, n, lp);
      AdvanceNoted(lenToMove, input, done, ts', n', lp, u);
      lp' := lp + lenToMove;
    }

    lemma Account(input: seq<Byte>, done: seq<Byte>, ts: seq<Token>, n: nat, lp: nat, room: nat)
      requires Inv(input, done, ts, n, lp, room)
      ensures Lossless(input, done, ts, n) && Waiting(input, n, lp, savedLen, savedDist, savedLit)
    {
      Unpack(input, done, ts, n, lp, room);
    }

    /** The same, keeping behind the last restart. */
    method ParseKeeping(ghost input: seq<Byte>, ghost done: seq<Byte>, ghost ts: seq<Token>, ghost n: nat,
                        ghost lp: nat)
      returns (ghost ts': seq<Token>, ghost n': nat, ghost lp': nat, ghost u: ParserStep)
      requires Tied() && Linked() && Inv(input, done, ts, n, lp, 8) && win.lookaheadSize >= 1 && Since(done, ts, n)
      modifies this`savedLen, this`savedDist, this`savedLit, win`lookaheadPos, win`lookaheadSize, win`dictSize
      modifies out.b.lz, out.b.lz.buf, out.b.lz.litCount, out.b.lz.distCount
      ensures Inv(input, done, ts', n', lp', 2) && old(StepStarts(u))
      ensures Since(done, ts', n') && Lossless(input, done, ts', n') && lp < lp'
      ensures Parsed(flags, input, lp, u, ts, ts') && lp' == lp + u.move
      ensures EndsWith(u, win.base, savedLen, savedDist, savedLit)
    {
      Account(input, done, ts, n, lp, 8);
      ts', n', lp', u := ParseAt(input, done, ts, n, lp);
      Account(input, done, ts', n', lp', 2);
      assert Shown(ts, 0);
      KeptParsed(flags, since, mark, out.bits, done, input, ts, n, lp, u, ts', n');
    }

    method RecordNext(ghost input: seq<Byte>, ghost done: seq<Byte>, ghost ts: seq<Token>, ghost n: nat, ghost lp: nat)
      returns (lenToMove: nat, ghost ts': seq<Token>, ghost n': nat, ghost u: ParserStep)
      requires Tied() && win.lookaheadSize >= 1 && WindowIs(input, lp) && Noted(input, lp, done, ts, n, 8)
      modifies this`savedLen, this`savedDist, this`savedLit
      modifies out.b.lz, out.b.lz.buf, out.b.lz.litCount, out.b.lz.distCount
      ensures 1 <= lenToMove && lp + lenToMove <= |input|
      ensures WindowIs(input, lp) && Noted(input, lp + lenToMove, done, ts', n', 2)
      ensures old(StepStarts(u))
      ensures Parsed(flags, input, lp, u, ts, ts') && u.move == lenToMove
      ensures EndsWith(u, win.base, savedLen, savedDist, savedLit)
    {
      Untie();
      var l, d, c := Look(input, lp, done, ts, n);
      ghost var sl, sd, sc := savedLen, savedDist, savedLit;
      lenToMove, ts', n' := RecordNoted(l, d, c, input, done, ts, n, lp);
      u := ParserStep(win.base, sl, sd, sc, l, d, lenToMove, savedLen, savedDist, savedLit);
    }

    method RecordNoted(len: nat, dist: nat, c: Byte, ghost input: seq<Byte>, ghost done: seq<Byte>,
                       ghost ts: seq<Token>, ghost n: nat, ghost lp: nat)
      returns (lenToMove: nat, ghost ts': seq<Token>, ghost n': nat)
      requires Linked() && WindowIs(input, lp) && Noted(input, lp, done, ts, n, 8)
      requires Choice(input, lp, savedLen, len, dist) && lp < |input| && c == input[lp]
      modifies this`savedLen, this`savedDist, this`savedLit
      modifies out.b.lz, out.b.lz.buf, out.b.lz.litCount, out.b.lz.distCount
      ensures 1 <= lenToMove && lp + lenToMove <= |input|
      ensures WindowIs(input, lp) && Noted(input, lp + lenToMove, done, ts', n', 2)
      ensures Lazy(flags, old(savedLen), old(savedDist), old(savedLit), len, dist, c, ts, ts', lenToMove,
                   savedLen, savedDist, savedLit)
    {
      RecordingApart();
      lenToMove, ts', n' := RecordStep(len, dist, c, ts, input, done, n, lp);
    }

    /** Recording, writing and the window go their own ways. */
    lemma RecordingApart()
      requires Linked()
      ensures var lz := out.b.lz;
              && out.b.w.out as object != lz.buf as object && out.b.w.out as object != lz.litCount as object
              && out.b.w.out as object != lz.distCount as object && win.dict as object != lz.buf as object
              && win.dict as object != lz.litCount as object && win.dict as object != lz.distCount as object
    {
      RecordingParts();
    }

    lemma WindowApart(a: object)
      requires Linked() && (a == win.dict || a == win.next || a == win.hash)
      ensures a != out.b.w.out as object && a != out.b.lz.buf as object
      ensures a != out.b.lz.litCount as object && a != out.b.lz.distCount as object
    {
      assert Shown(out.b, 0);
    }

    method AdvanceNoted(len: nat, ghost input: seq<Byte>, ghost done: seq<Byte>, ghost ts: seq<Token>, ghost n: nat,
                        ghost lp: nat, ghost u: ParserStep)
      requires Tied() && WindowIs(input, lp) && lp + len <= |input| && Noted(input, lp + len, done, ts, n, 2)
      requires EndsWith(u, win.base, savedLen, savedDist, savedLit)
      modifies win`lookaheadPos, win`lookaheadSize, win`dictSize
      ensures WindowIs(input, lp + len) && Noted(input, lp + len, done, ts, n, 2)
      ensures EndsWith(u, win.base, savedLen, savedDist, savedLit)
    {
      Untie();
      win.Advance(len);
    }

    method FlushAt(ghost input: seq<Byte>, ghost done: seq<Byte>, ghost ts: seq<Token>, ghost n: nat, ghost lp: nat)
      returns (ghost done': seq<Byte>, ghost ts': seq<Token>)
      requires Inv(input, done, ts, n, lp, 2)
      modifies this`dictPos, out, out.b.parts
      ensures Inv(input, done', ts', n, lp, 8) && n <= |input|
      ensures FlushedInTime(flags, ts, done, input[..n], ts', done')
      ensures |done| <= n && BitsInTime(flags, ts, old(out.bits), out.bits, input[|done|..n])
    {
      Unpack(input, done, ts, n, lp, 2);
      ts', done' := FlushFramed(input, done, ts, n, lp);
      Pack(input, done', ts', n, lp, 8);
    }

    /** The same, keeping behind the last restart. */
    method FlushInTime(ghost input: seq<Byte>, ghost done: seq<Byte>, ghost ts: seq<Token>, ghost n: nat, ghost lp: nat,
                       ghost u: ParserStep)
      returns (ghost done': seq<Byte>, ghost ts': seq<Token>)
      requires Linked() && Inv(input, done, ts, n, lp, 2) && Since(done, ts, n) && Lossless(input, done, ts, n)
      requires EndsWith(u, win.base, savedLen, savedDist, savedLit)
      modifies this`dictPos, out, out.b.parts
      ensures Inv(input, done', ts', n, lp, 8) && n <= |input| && Since(done', ts', n)
      ensures FlushedInTime(flags, ts, done, input[..n], ts', done')
      ensures EndsWith(u, win.base, savedLen, savedDist, savedLit)
    {
      ghost var bits0 := out.bits;
      done', ts' := FlushAt(input, done, ts, n, lp);
      KeptInTime(since, mark, win.base, bits0, savedLen, savedDist, done, ts, n, input, out.bits, flags, done', ts');
    }

    method FlushFramed(ghost input: seq<Byte>, ghost done: seq<Byte>, ghost ts: seq<Token>, ghost n: nat, ghost lp: nat)
      returns (ghost ts': seq<Token>, ghost done': seq<Byte>)
      requires Linked() && WindowIs(input, lp)
      requires Noted(input, lp, done, ts, n, 2)
      modifies this`dictPos, out, out.b.parts
      ensures WindowIs(input, lp)
      ensures Noted(input, lp, done', ts', n, 8) && n <= |input|
      ensures FlushedInTime(flags, ts, done, input[..n], ts', done')
      ensures |done| <= n && BitsInTime(flags, ts, old(out.bits), out.bits, input[|done|..n])
    {
      assert WindowIs(input, lp);
      ts', done' := FlushIfFull(ts, input, done, n, lp);
    }

    /** Tokens recorded, output written, and what they account for. */
    ghost predicate Noted(input: seq<Byte>, lp: nat, done: seq<Byte>, ts: seq<Token>, n: nat, room: nat)
      reads this, out, out.b.w, out.b.w.out, out.b.lz, out.b.lz.buf, out.b.lz.litCount, out.b.lz.distCount
    {
      (adler < 0x1_0000_0000 && Recorded(ts, room) && OutputIs(done) && Accounted(input, lp, done, ts, n)) == true
    }

    /** The window at position `lp` of `input`. */
    ghost predicate WindowIs(input: seq<Byte>, lp: nat)
      reads win, win.dict, win.next, win.hash
    {
      (win.Valid() && win.Chained() && win.input == input && lp == win.lookaheadPos) == true
    }

    /**
     Decides about the current position and writes a block if it is time to: `u` is the step
     of the parser, and `mid` the tokens with what it has recorded.
     */
    method Decide(ghost input: seq<Byte>, ghost done: seq<Byte>, ghost ts: seq<Token>, ghost n: nat, ghost lp: nat)
      returns (ghost done': seq<Byte>, ghost ts': seq<Token>, ghost n': nat, ghost lp': nat,
          ghost u: ParserStep, ghost mid: seq<Token>)
      requires Tied() && Inv(input, done, ts, n, lp, 8) && win.lookaheadSize >= 1 && Since(done, ts, n)
      modifies this`savedLen, this`savedDist, this`savedLit, this`dictPos, win`lookaheadPos, win`lookaheadSize,
          win`dictSize
      modifies out, out.b.parts
      ensures Inv(input, done', ts', n', lp', 8) && lp < lp' && n' <= |input|
      ensures Since(done', ts', n') && old(StepStarts(u))
      ensures Parsed(flags, input, lp, u, ts, mid) && lp' == lp + u.move
      ensures EndsWith(u, win.base, savedLen, savedDist, savedLit)
      ensures FlushedInTime(flags, mid, done, input[..n'], ts', done')
    {
      Untie();
      RecordingParts();
      mid, n', lp', u := ParseKeeping(input, done, ts, n, lp);
      done', ts' := FlushInTime(input, done, mid, n', lp', u);
    }

    /** `tdefl_compress_normal`: takes all of `src` in; when flushing, nothing is left ahead. */
    method CompressNormal(src: seq<Byte>, flushing: bool, ghost input: seq<Byte>, ghost done: seq<Byte>,
                          ghost ts: seq<Token>, ghost n: nat, ghost lp: nat)
      returns (ghost done': seq<Byte>, ghost ts': seq<Token>, ghost n': nat, ghost lp': nat)
      requires Tied() && Inv(input, done, ts, n, lp, 8) && |input| < lp + MAX_MATCH && Since(done, ts, n)
      modifies this`savedLen, this`savedDist, this`savedLit, this`dictPos, win, win.dict, win.next, win.hash
      modifies out, out.b.parts
      ensures Inv(input + src, done', ts', n', lp', 8) && lp' <= |input + src| && (flushing ==> lp' == |input + src|)
      ensures |input + src| < lp' + MAX_MATCH && Since(done', ts', n')
    {
      done', ts', n', lp' := done, ts, n, lp;
      ghost var taken := input;
      var at := 0;
      assert input + src[..0] == input;
      var more := GoesOn(src, 0, flushing, input, done, ts, n, lp);
      while more
        invariant 0 <= at <= |src| && taken == input + src[..at] && Inv(taken, done', ts', n', lp', 8)
        invariant lp' <= |taken| && Since(done', ts', n')
        invariant !more ==> at == |src| && (flushing ==> lp' == |taken|) && |taken| < lp' + MAX_MATCH
        invariant more ==> at < |src| || (flushing && lp' < |taken|)
        decreases more, |input| + |src| - lp'
      {
        more, at, taken, done', ts', n', lp' := Turn(src, at, flushing, input, taken, done', ts', n', lp');
      }
      assert src[..at] == src;
    }

    /** One turn of the loop. */
    method Turn(src: seq<Byte>, at: nat, flushing: bool, ghost input: seq<Byte>, ghost taken: seq<Byte>,
                ghost done: seq<Byte>, ghost ts: seq<Token>, ghost n: nat, ghost lp: nat)
      returns (more: bool, at': nat, ghost taken': seq<Byte>, ghost done': seq<Byte>, ghost ts': seq<Token>,
          ghost n': nat, ghost lp': nat)
      requires Tied() && at <= |src| && taken == input + src[..at] && Inv(taken, done, ts, n, lp, 8) && lp <= |taken|
      requires Since(done, ts, n) && (at < |src| || (flushing && lp < |taken|))
      modifies this`savedLen, this`savedDist, this`savedLit, this`dictPos, win, win.dict, win.next, win.hash
      modifies out, out.b.parts
      ensures at' <= |src| && taken' == input + src[..at'] && Inv(taken', done', ts', n', lp', 8)
      ensures Since(done', ts', n')
      ensures !more ==> at' == |src| && (flushing ==> lp' == |taken'|) && |taken'| < lp' + MAX_MATCH
      ensures lp' <= |taken'|
      ensures more ==> lp < lp' && (at' < |src| || (flushing && lp' < |taken'|))
    {
      at', taken' := TakeIn(src, at, taken, done, ts, n, lp);
      SliceOn(input, src, at, at');
      more, done', ts', n', lp' := StepOn(src, at', flushing, taken', done, ts, n, lp);
    }

    method StepOn(src: seq<Byte>, at: nat, flushing: bool, ghost taken: seq<Byte>, ghost done: seq<Byte>,
                  ghost ts: seq<Token>, ghost n: nat, ghost lp: nat)
      returns (more: bool, ghost done': seq<Byte>, ghost ts': seq<Token>, ghost n': nat, ghost lp': nat)
      requires Tied() && at <= |src| && Inv(taken, done, ts, n, lp, 8) && Since(done, ts, n)
      requires win.lookaheadSize == |taken| - lp <= MAX_MATCH && (at < |src| ==> win.lookaheadSize == MAX_MATCH)
      requires flushing ==> lp < |taken|
      modifies this`savedLen, this`savedDist, this`savedLit, this`dictPos, win, win.dict, win.next, win.hash
      modifies out, out.b.parts
      ensures Inv(taken, done', ts', n', lp', 8) && lp' <= |taken| && Since(done', ts', n')
      ensures !more ==> at == |src| && (flushing ==> lp' == |taken|) && |taken| < lp' + MAX_MATCH
      ensures more ==> lp < lp' && (at < |src| || (flushing && lp' < |taken|))
    {
      if flushing || win.lookaheadSize == MAX_MATCH {
        more, done', ts', n', lp' := DecideOn(src, at, flushing, taken, done, ts, n, lp);
      } else {
        more, done', ts', n', lp' := false, done, ts, n, lp;
      }
    }

    method DecideOn(src: seq<Byte>, at: nat, flushing: bool, ghost taken: seq<Byte>, ghost done: seq<Byte>,
                    ghost ts: seq<Token>, ghost n: nat, ghost lp: nat)
      returns (more: bool, ghost done': seq<Byte>, ghost ts': seq<Token>, ghost n': nat, ghost lp': nat)
      requires Tied() && at <= |src| && Inv(taken, done, ts, n, lp, 8) && win.lookaheadSize >= 1 && Since(done, ts, n)
      modifies this`savedLen, this`savedDist, this`savedLit, this`dictPos, win, win.dict, win.next, win.hash
      modifies out, out.b.parts
      ensures Inv(taken, done', ts', n', lp', 8) && lp < lp' <= |taken| && Since(done', ts', n')
      ensures more <==> at < |src| || (flushing && lp' < |taken|)
    {
      ghost var u, mid;
      done', ts', n', lp', u, mid := Decide(taken, done, ts, n, lp);
      more := GoesOn(src, at, flushing, taken, done', ts', n', lp');
    }

    method GoesOn(src: seq<Byte>, at: nat, flushing: bool, ghost taken: seq<Byte>, ghost done: seq<Byte>,
                  ghost ts: seq<Token>, ghost n: nat, ghost lp: nat)
      returns (more: bool)
      requires at <= |src| && Inv(taken, done, ts, n, lp, 8)
      ensures more <==> at < |src| || (flushing && lp < |taken|)
      ensures lp <= |taken|
    {
      Unpack(taken, done, ts, n, lp, 8);
      more := at < |src| || (flushing && win.lookaheadSize > 0);
    }

    method SetAdler(a: nat, ghost input: seq<Byte>, ghost done: seq<Byte>, ghost ts: seq<Token>, ghost n: nat,
                    ghost lp: nat)
      requires Tied() && Inv(input, done, ts, n, lp, 8) && a < 0x1_0000_0000
      modifies this`adler
      ensures Inv(input, done, ts, n, lp, 8) && adler == a
    {
      Untie();
      Unpack(input, done, ts, n, lp, 8);
      AdlerOnly(a, input, done, ts, n, lp);
      Pack(input, done, ts, n, lp, 8);
    }

    method AdlerOnly(a: nat, ghost input: seq<Byte>, ghost done: seq<Byte>, ghost ts: seq<Token>, ghost n: nat,
                     ghost lp: nat)
      requires Linked() && WindowIs(input, lp) && a < 0x1_0000_0000
      requires Noted(input, lp, done, ts, n, 8)
      modifies this`adler
      ensures WindowIs(input, lp) && adler == a
      ensures Noted(input, lp, done, ts, n, 8)
    {
      adler := a;
    }

    /** A full flush: later matches must not reach back behind this point. */
    method Forget(ghost input: seq<Byte>, ghost done: seq<Byte>, ghost ts: seq<Token>, ghost n: nat, ghost lp: nat)
      requires Tied() && Inv(input, done, ts, n, lp, 8) && lp == |input| && Since(done, ts, n) && done == input
      modifies win`dictSize, win`base, win.next, win.hash
      ensures Inv(input, done, ts, n, lp, 8) && win.base == |input| && Since(done, ts, n)
    {
      Untie();
      Unpack(input, done, ts, n, lp, 8);
      AllRecorded(input, done, ts, n);
      ForgetOnly(input, done, ts, n, lp);
      Pack(input, done, ts, n, lp, 8);
    }

    method ForgetOnly(ghost input: seq<Byte>, ghost done: seq<Byte>, ghost ts: seq<Token>, ghost n: nat, ghost lp: nat)
      requires Linked() && WindowIs(input, lp) && lp == |input|
      requires Noted(input, lp, done, ts, n, 8)
      modifies win`dictSize, win`base, win.next, win.hash
      ensures WindowIs(input, lp) && win.base == |input|
      ensures Noted(input, lp, done, ts, n, 8)
    {
      WindowApart(win.next);
      WindowApart(win.hash);
      win.Forget();
    }

    /** Notes that the output can be read from here on by itself. */
    ghost method MarkHere(input: seq<Byte>)
      requires Tied() && Inv(input, input, [], |input|, |input|, 8) && AtByte() && win.base == |input|
      modifies this`since, this`mark
      ensures Inv(input, input, [], |input|, |input|, 8) && Since(input, [], |input|) && since == |input|
      ensures 8 * |out.sink| == |StreamHeader(flags, 1)| + mark
    {
      Untie();
      Unpack(input, input, [], |input|, |input|, 8);
      AllRecorded(input, input, [], |input|);
      WholeBytesOut(input);
      RestartsHere(out.bits, input);
      SetMark(input, |out.bits|);
      Pack(input, input, [], |input|, |input|, 8);
    }

    ghost method SetMark(input: seq<Byte>, at: nat)
      requires Linked() && WindowIs(input, |input|) && Noted(input, |input|, input, [], |input|, 8)
      modifies this`since, this`mark
      ensures WindowIs(input, |input|) && Noted(input, |input|, input, [], |input|, 8)
      ensures since == |input| && mark == at
    {
      since, mark := |input|, at;
    }

    lemma WholeBytesOut(input: seq<Byte>)
      requires OutputIs(input) && AtByte()
      ensures |out.bits| % 8 == 0 && 8 * |out.sink| == |StreamHeader(flags, 1)| + |out.bits|
    {
      var header := StreamHeader(flags, out.blockIndex);
      assert SinkHolds(out.sink, [], header, out.bits);
      assert |BytesToBits(out.sink) + []| == |header + out.bits|;
      WholeMinus(|out.sink|, if |header| == 16 then 2 else 0, |out.bits|);
    }

    lemma WholeMinus(a: nat, b: nat, n: nat)
      requires 8 * a == 8 * b + n
      ensures n % 8 == 0
    {
    }

    // ---- The end of the input, for now or for good

    /** With nothing left ahead, everything is recorded: no match is pending. */
    lemma AllRecorded(input: seq<Byte>, done: seq<Byte>, ts: seq<Token>, n: nat)
      requires Accounted(input, |input|, done, ts, n)
      ensures n == |input| && input[..n] == input && savedLen == 0
    {
    }

    /** With no bits pending, the output is a header and whole blocks. */
    lemma SyncedOutput(input: seq<Byte>, ts: seq<Token>, n: nat, lp: nat)
      requires Inv(input, input, ts, n, lp, 8) && AtByte()
      ensures SinkHolds(out.sink, [], StreamHeader(flags, 1), out.bits) && Reads(out.bits, input)
    {
      Unpack(input, input, ts, n, lp, 8);
    }

    /** The last flush. */
    method FinishTokens(ghost input: seq<Byte>, ghost done: seq<Byte>, ghost ts: seq<Token>, ghost n: nat)
      requires Tied() && Inv(input, done, ts, n, |input|, 8) && Since(done, ts, n)
      modifies this`dictPos, out, out.b.parts
      ensures since <= |input| && mark <= |out.bits| && mark % 8 == 0 && Ends(out.bits[mark..], input[since..])
      ensures since == old(since) && mark == old(mark)
      ensures adler == old(adler) < 0x1_0000_0000 && out.After(FlushMode.Finish, flags, adler, input)
    {
      Untie();
      Unpack(input, done, ts, n, |input|, 8);
      AllRecorded(input, done, ts, n);
      Account(input, done, ts, n, |input|, 8);
      var next;
      next := FinishFramed(input, done, ts);
      dictPos := next;
    }

    method FinishFramed(ghost input: seq<Byte>, ghost done: seq<Byte>, ghost ts: seq<Token>) returns (next: nat)
      requires Linked() && WindowIs(input, |input|) && Noted(input, |input|, done, ts, |input|, 8)
      requires Since(done, ts, |input|) && Lossless(input, done, ts, |input|)
      modifies out, out.b.parts
      ensures since <= |input| && mark <= |out.bits| && mark % 8 == 0 && Ends(out.bits[mark..], input[since..])
      ensures adler < 0x1_0000_0000 && out.After(FlushMode.Finish, flags, adler, input)
    {
      ghost var bits0 := out.bits;
      assert input[..|input|] == input;
      next := FlushTokens(FlushMode.Finish, ts, 8, input, done, |input|, |input|);
      KeptToTheEnd(since, mark, win.base, bits0, savedLen, savedDist, done, ts, input, out.bits, flags);
    }

    /** A flush after which compression goes on. */
    method SyncTokens(mode: FlushMode, ghost input: seq<Byte>, ghost done: seq<Byte>, ghost ts: seq<Token>,
                      ghost n: nat)
      requires Tied() && Inv(input, done, ts, n, |input|, 8) && (mode.SyncFlush? || mode.FullFlush?)
      requires Since(done, ts, n)
      modifies this`dictPos, out, out.b.parts
      ensures Inv(input, input, [], |input|, |input|, 8) && Since(input, [], |input|)
      ensures AtByte() && Marked(out.bits)
    {
      Untie();
      Unpack(input, done, ts, n, |input|, 8);
      AllRecorded(input, done, ts, n);
      Account(input, done, ts, n, |input|, 8);
      ghost var bits0 := out.bits;
      FlushKeeping(mode, input, done, ts, n, |input|);
      KeptFlushed(since, mark, win.base, bits0, savedLen, savedDist, done, ts, n, input, out.bits, flags, mode);
      Pack(input, input[..n], [], n, |input|, 8);
    }

    method FlushKeeping(mode: FlushMode, ghost input: seq<Byte>, ghost done: seq<Byte>, ghost ts: seq<Token>,
                        ghost n: nat, ghost lp: nat)
      requires Linked() && WindowIs(input, lp) && !mode.Finish?
      requires Noted(input, lp, done, ts, n, 8)
      modifies this`dictPos, out, out.b.parts
      ensures WindowIs(input, lp)
      ensures n <= |input| && Noted(input, lp, input[..n], [], n, 8)
      ensures mode.NoFlush? || AtByte()
      ensures mode.SyncFlush? || mode.FullFlush? ==> Marked(out.bits)
      ensures |done| <= n && Grew(old(out.bits), out.bits, flags, mode, ts, input[|done|..n])
    {
      FlushNow(mode, ts, 8, input, done, n, lp);
    }
  }

  lemma SliceOn(input: seq<Byte>, src: seq<Byte>, at: nat, at': nat)
    requires at <= at' <= |src|
    ensures input + src[..at] + src[at..at'] == input + src[..at']
  {
    assert src[..at] + src[at..at'] == src[..at'];
  }
}
