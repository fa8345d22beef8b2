/**
 The bits a compressor writes for a block of each kind, and the proof that
 decoding them yields the tokens' expansion and stops where the block ends.
 */
module BlockBits {
  import opened Bits
  import opened Canonical
  import opened DecodeTable
  import opened Tokens
  import opened InflateSpec

  // ---- Reading back one field

  lemma FieldAhead(v: nat, n: nat, rest: seq<bool>)
    requires v < Pow2(n)
    ensures var bits := ToBits(v, n) + rest;
            Val(bits, n) == v && bits[n..] == rest
  {
    var bits := ToBits(v, n) + rest;
    assert bits[..n] == ToBits(v, n);
    FromToBits(v, n);
  }

  lemma CodeAhead(lens: seq<nat>, sym: nat, rest: seq<bool>)
    requires Prefixable(lens) && sym < |lens| && lens[sym] >= 1
    ensures var bits := CodeBits(lens, sym) + rest;
            DecodeSym(lens, bits) == sym && Next(lens, bits, sym) && bits[lens[sym]..] == rest
  {
    DecodeWritten(lens, sym, rest);
  }

  // ---- Tokens

  function LengthField(lit: seq<nat>, len: nat): seq<bool>
    requires MIN_MATCH <= len <= MAX_MATCH && LenSym(len - MIN_MATCH) < |lit|
  {
    var m := len - MIN_MATCH;
    CodeBits(lit, LenSym(m)) + ToBits(Low(m, LenExtra(m)), LenExtra(m))
  }

  function DistField(dist: seq<nat>, d: nat): seq<bool>
    requires 1 <= d <= MAX_DIST && DistSym(d - 1) < |dist|
  {
    CodeBits(dist, DistSym(d - 1)) + ToBits(Low(d - 1, DistExtra(d - 1)), DistExtra(d - 1))
  }

  /** The token's symbols have code words. */
  predicate Encodable(lit: seq<nat>, dist: seq<nat>, t: Token) {
    match t
    case Literal(b) => b < |lit| && lit[b] >= 1
    case Match(len, d) =>
      && MIN_MATCH <= len <= MAX_MATCH && 1 <= d <= MAX_DIST
      && LenSym(len - MIN_MATCH) < |lit| && lit[LenSym(len - MIN_MATCH)] >= 1
      && DistSym(d - 1) < |dist| && dist[DistSym(d - 1)] >= 1
  }

  function TokenBits(lit: seq<nat>, dist: seq<nat>, t: Token): seq<bool>
    requires Encodable(lit, dist, t)
  {
    match t
    case Literal(b) => CodeBits(lit, b)
    case Match(len, d) => LengthField(lit, len) + DistField(dist, d)
  }

  ghost predicate AllEncodable(lit: seq<nat>, dist: seq<nat>, ts: seq<Token>) {
    forall i :: 0 <= i < |ts| ==> Encodable(lit, dist, ts[i])
  }

  ghost function TokensBits(lit: seq<nat>, dist: seq<nat>, ts: seq<Token>): seq<bool>
    requires AllEncodable(lit, dist, ts)
  {
    if ts == [] then [] else TokenBits(lit, dist, ts[0]) + TokensBits(lit, dist, ts[1..])
  }

  lemma {:induction false} TokensBitsSnoc(lit: seq<nat>, dist: seq<nat>, ts: seq<Token>, t: Token)
    requires AllEncodable(lit, dist, ts) && Encodable(lit, dist, t)
    ensures AllEncodable(lit, dist, ts + [t])
    ensures TokensBits(lit, dist, ts + [t]) == TokensBits(lit, dist, ts) + TokenBits(lit, dist, t)
  {
    if ts == [] {
      assert ts + [t] == [t];
      assert [t][1..] == [];
    } else {
      assert (ts + [t])[1..] == ts[1..] + [t];
      TokensBitsSnoc(lit, dist, ts[1..], t);
      assert TokenBits(lit, dist, ts[0]) + (TokensBits(lit, dist, ts[1..]) + TokenBits(lit, dist, t))
          == (TokenBits(lit, dist, ts[0]) + TokensBits(lit, dist, ts[1..])) + TokenBits(lit, dist, t);
    }
  }

  ghost predicate GoodCodes(c: Codes) {
    Prefixable(c.lit) && Prefixable(c.dist) && |c.lit| > 256 && c.lit[256] >= 1
  }

  lemma LengthDecodes(c: Codes, len: nat, rest: seq<bool>, out: seq<Byte>)
    requires Prefixable(c.lit) && MIN_MATCH <= len <= MAX_MATCH
    requires LenSym(len - MIN_MATCH) < |c.lit| && c.lit[LenSym(len - MIN_MATCH)] >= 1
    ensures Symbols(c, LengthField(c.lit, len) + rest, out) == Distance(c, len, rest, out)
  {
    var m := len - MIN_MATCH;
    var sym, e := LenSym(m), LenExtra(m);
    var extra := ToBits(Low(m, e), e);
    LengthRoundTrip(m);
    Regroup(CodeBits(c.lit, sym), extra, rest);
    LengthSymbolRead(c, sym, extra + rest, out);
    LengthExtraRead(c, LENGTH_BASE[sym - 257], e, Low(m, e), rest, out);
  }

  lemma LengthSymbolRead(c: Codes, sym: nat, rest: seq<bool>, out: seq<Byte>)
    requires Prefixable(c.lit) && 257 <= sym < 286 && sym < |c.lit| && c.lit[sym] >= 1
    ensures Symbols(c, CodeBits(c.lit, sym) + rest, out)
         == LengthBits(c, LENGTH_BASE[sym - 257], LENGTH_EXTRA[sym - 257], rest, out)
  {
    CodeAhead(c.lit, sym, rest);
  }

  lemma LengthExtraRead(c: Codes, base: nat, e: nat, v: nat, rest: seq<bool>, out: seq<Byte>)
    requires v < Pow2(e)
    ensures LengthBits(c, base, e, ToBits(v, e) + rest, out) == Distance(c, base + v, rest, out)
  {
    FieldAhead(v, e, rest);
  }

  lemma DistanceDecodes(c: Codes, len: nat, d: nat, rest: seq<bool>, out: seq<Byte>)
    requires Prefixable(c.dist) && 1 <= d <= MAX_DIST && d <= |out|
    requires DistSym(d - 1) < |c.dist| && c.dist[DistSym(d - 1)] >= 1
    ensures Distance(c, len, DistField(c.dist, d) + rest, out) == Symbols(c, rest, Copy(out, len, d))
  {
    var sym, e := DistSym(d - 1), DistExtra(d - 1);
    var extra := ToBits(Low(d - 1, e), e);
    DistRoundTrip(d - 1);
    Regroup(CodeBits(c.dist, sym), extra, rest);
    DistSymbolRead(c, len, sym, extra + rest, out);
    DistExtraRead(c, len, DIST_BASE[sym], e, Low(d - 1, e), d, rest, out);
  }

  lemma DistSymbolRead(c: Codes, len: nat, sym: nat, rest: seq<bool>, out: seq<Byte>)
    requires Prefixable(c.dist) && sym < 30 && sym < |c.dist| && c.dist[sym] >= 1
    ensures Distance(c, len, CodeBits(c.dist, sym) + rest, out)
         == DistanceBits(c, len, DIST_BASE[sym], DIST_EXTRA[sym], rest, out)
  {
    CodeAhead(c.dist, sym, rest);
  }

  lemma DistExtraRead(c: Codes, len: nat, base: nat, e: nat, v: nat, d: nat, rest: seq<bool>, out: seq<Byte>)
    requires v < Pow2(e) && d == base + v && 1 <= d <= |out|
    ensures DistanceBits(c, len, base, e, ToBits(v, e) + rest, out) == Symbols(c, rest, Copy(out, len, d))
  {
    FieldAhead(v, e, rest);
    assert Copying(c, len, d, rest, out) == Symbols(c, rest, Copy(out, len, d));
  }

  lemma TokenDecodes(c: Codes, t: Token, rest: seq<bool>, out: seq<Byte>)
    requires GoodCodes(c) && Encodable(c.lit, c.dist, t) && Fits(t, |out|)
    ensures Symbols(c, TokenBits(c.lit, c.dist, t) + rest, out) == Symbols(c, rest, Apply(out, t))
  {
    match t
    case Literal(b) =>
      CodeAhead(c.lit, b, rest);
    case Match(len, d) =>
      LengthDecodes(c, len, DistField(c.dist, d) + rest, out);
      DistanceDecodes(c, len, d, rest, out);
      assert TokenBits(c.lit, c.dist, t) + rest == LengthField(c.lit, len) + (DistField(c.dist, d) + rest);
  }

  /** Compressed data with the end-of-block symbol after it. */
  ghost function BodyBits(lit: seq<nat>, dist: seq<nat>, ts: seq<Token>): seq<bool>
    requires AllEncodable(lit, dist, ts) && |lit| > 256
  {
    TokensBits(lit, dist, ts) + CodeBits(lit, 256)
  }

  lemma TailEncodable(lit: seq<nat>, dist: seq<nat>, ts: seq<Token>)
    requires ts != [] && AllEncodable(lit, dist, ts)
    ensures Encodable(lit, dist, ts[0]) && AllEncodable(lit, dist, ts[1..])
  {
  }

  /** Compressed data decodes to exactly the expansion of its tokens. */
  lemma {:induction false} BodyDecodes(c: Codes, ts: seq<Token>, rest: seq<bool>, out: seq<Byte>)
    requires GoodCodes(c) && AllEncodable(c.lit, c.dist, ts) && AllFit(ts, |out|)
    ensures Symbols(c, BodyBits(c.lit, c.dist, ts) + rest, out) == EndBlock(c.final, rest, Expand(out, ts))
    decreases |ts|
  {
    if ts == [] {
      CodeAhead(c.lit, 256, rest);
      assert BodyBits(c.lit, c.dist, ts) == CodeBits(c.lit, 256);
    } else {
      TailEncodable(c.lit, c.dist, ts);
      TailFits(ts, out);
      var more := BodyBits(c.lit, c.dist, ts[1..]) + rest;
      assert BodyBits(c.lit, c.dist, ts) + rest == TokenBits(c.lit, c.dist, ts[0]) + more;
      TokenDecodes(c, ts[0], more, out);
      BodyDecodes(c, ts[1..], rest, Apply(out, ts[0]));
    }
  }

  // ---- Trailing unused symbols may be left out of the code

  lemma TrimmedToken(lit: seq<nat>, dist: seq<nat>, n: nat, k: nat, t: Token)
    requires n <= |lit| && k <= |dist| && Encodable(lit, dist, t)
    requires forall i :: n <= i < |lit| ==> lit[i] == 0
    requires forall i :: k <= i < |dist| ==> dist[i] == 0
    ensures Encodable(lit[..n], dist[..k], t) && TokenBits(lit[..n], dist[..k], t) == TokenBits(lit, dist, t)
  {
    TrimmedCode(lit, n);
    TrimmedCode(dist, k);
  }

  lemma {:induction false} TrimmedTokens(lit: seq<nat>, dist: seq<nat>, n: nat, k: nat, ts: seq<Token>)
    requires n <= |lit| && k <= |dist| && AllEncodable(lit, dist, ts)
    requires forall i :: n <= i < |lit| ==> lit[i] == 0
    requires forall i :: k <= i < |dist| ==> dist[i] == 0
    ensures AllEncodable(lit[..n], dist[..k], ts) && TokensBits(lit[..n], dist[..k], ts) == TokensBits(lit, dist, ts)
  {
    if ts != [] {
      TrimmedToken(lit, dist, n, k, ts[0]);
      TrimmedTokens(lit, dist, n, k, ts[1..]);
    }
  }

  lemma TrimmedBody(lit: seq<nat>, dist: seq<nat>, n: nat, k: nat, ts: seq<Token>)
    requires 256 < n <= |lit| && k <= |dist| && AllEncodable(lit, dist, ts) && lit[256] >= 1
    requires forall i :: n <= i < |lit| ==> lit[i] == 0
    requires forall i :: k <= i < |dist| ==> dist[i] == 0
    ensures AllEncodable(lit[..n], dist[..k], ts) && BodyBits(lit[..n], dist[..k], ts) == BodyBits(lit, dist, ts)
  {
    TrimmedTokens(lit, dist, n, k, ts);
    TrimmedCode(lit, n);
  }

  lemma TrimmedDecodable(lens: seq<nat>, n: nat)
    requires n <= |lens| && (forall i :: n <= i < |lens| ==> lens[i] == 0) && Decodable(lens)
    ensures Decodable(lens[..n])
  {
    TrimmedCode(lens, n);
  }

  // ---- Run-length coded code lengths

  datatype Op = Plain(len: nat) | Repeat(sym: nat, extra: nat)

  predicate OpOk(op: Op, lens: seq<nat>) {
    match op
    case Plain(l) => l < 16
    case Repeat(sym, extra) => 16 <= sym <= 18 && extra < Pow2(RepeatWidth(sym)) && (sym == 16 ==> lens != [])
  }

  /** What a decoder makes of one more operation. */
  function Do(lens: seq<nat>, op: Op): (r: seq<nat>)
    requires OpOk(op, lens)
    ensures lens <= r
  {
    match op
    case Plain(l) => lens + [l]
    case Repeat(sym, extra) => lens + Run(RepeatBase(sym) + extra, if sym == 16 then lens[|lens| - 1] else 0)
  }

  ghost predicate OpsOk(ops: seq<Op>, lens: seq<nat>)
    decreases |ops|
  {
    ops == [] || (OpOk(ops[0], lens) && OpsOk(ops[1..], Do(lens, ops[0])))
  }

  /** The code lengths a list of operations stands for. */
  ghost function Unpack(lens: seq<nat>, ops: seq<Op>): (r: seq<nat>)
    requires OpsOk(ops, lens)
    ensures lens <= r
    decreases |ops|
  {
    if ops == [] then lens else Unpack(Do(lens, ops[0]), ops[1..])
  }

  lemma {:induction false} UnpackSnoc(lens: seq<nat>, ops: seq<Op>, op: Op)
    requires OpsOk(ops, lens) && OpOk(op, Unpack(lens, ops))
    ensures OpsOk(ops + [op], lens) && Unpack(lens, ops + [op]) == Do(Unpack(lens, ops), op)
    decreases |ops|
  {
    if ops == [] {
      assert ops + [op] == [op];
      assert [op][1..] == [];
    } else {
      assert (ops + [op])[1..] == ops[1..] + [op];
      UnpackSnoc(Do(lens, ops[0]), ops[1..], op);
    }
  }

  function OpSym(op: Op): nat {
    if op.Plain? then op.len else op.sym
  }

  function OpBits(cl: seq<nat>, op: Op): seq<bool>
    requires OpSym(op) < |cl|
  {
    CodeBits(cl, OpSym(op)) + (if op.Plain? then [] else ToBits(op.extra, RepeatWidth(op.sym)))
  }

  ghost predicate OpsCoded(cl: seq<nat>, ops: seq<Op>) {
    forall i :: 0 <= i < |ops| ==> OpSym(ops[i]) < |cl| && cl[OpSym(ops[i])] >= 1
  }

  ghost function OpsBits(cl: seq<nat>, ops: seq<Op>): seq<bool>
    requires OpsCoded(cl, ops)
  {
    if ops == [] then [] else OpBits(cl, ops[0]) + OpsBits(cl, ops[1..])
  }

  lemma {:induction false} OpsBitsSnoc(cl: seq<nat>, ops: seq<Op>, op: Op)
    requires OpsCoded(cl, ops) && OpSym(op) < |cl| && cl[OpSym(op)] >= 1
    ensures OpsCoded(cl, ops + [op]) && OpsBits(cl, ops + [op]) == OpsBits(cl, ops) + OpBits(cl, op)
  {
    if ops == [] {
      assert ops + [op] == [op];
      assert [op][1..] == [];
    } else {
      assert (ops + [op])[1..] == ops[1..] + [op];
      OpsBitsSnoc(cl, ops[1..], op);
      assert OpBits(cl, ops[0]) + (OpsBits(cl, ops[1..]) + OpBits(cl, op))
          == (OpBits(cl, ops[0]) + OpsBits(cl, ops[1..])) + OpBits(cl, op);
    }
  }

  lemma TailCoded(cl: seq<nat>, ops: seq<Op>)
    requires ops != [] && OpsCoded(cl, ops)
    ensures OpSym(ops[0]) < |cl| && cl[OpSym(ops[0])] >= 1 && OpsCoded(cl, ops[1..])
  {
  }

  lemma OpDecodes(final: bool, sizes: seq<nat>, cl: seq<nat>, lens: seq<nat>, op: Op, rest: seq<bool>, out: seq<Byte>)
    requires |sizes| >= 3 && Prefixable(cl) && OpSym(op) < |cl| && cl[OpSym(op)] >= 1
    requires OpOk(op, lens) && |lens| < sizes[0] + sizes[1]
    ensures Sizes(final, sizes, cl, lens, OpBits(cl, op) + rest, out) ==
        Sizes(final, sizes, cl, Do(lens, op), rest, out)
  {
    if op.Plain? {
      PlainDecodes(final, sizes, cl, lens, op, rest, out);
    } else {
      RepeatDecodes(final, sizes, cl, lens, op, rest, out);
    }
  }

  lemma PlainDecodes(final: bool, sizes: seq<nat>, cl: seq<nat>, lens: seq<nat>, op: Op, rest: seq<bool>,
                     out: seq<Byte>)
    requires |sizes| >= 3 && Prefixable(cl) && OpSym(op) < |cl| && cl[OpSym(op)] >= 1
    requires OpOk(op, lens) && |lens| < sizes[0] + sizes[1] && op.Plain?
    ensures Sizes(final, sizes, cl, lens, OpBits(cl, op) + rest, out)
         == Sizes(final, sizes, cl, Do(lens, op), rest, out)
  {
    assert OpBits(cl, op) == CodeBits(cl, op.len);
    PlainRead(final, sizes, cl, lens, op.len, rest, out);
  }

  lemma RepeatDecodes(final: bool, sizes: seq<nat>, cl: seq<nat>, lens: seq<nat>, op: Op, rest: seq<bool>,
                      out: seq<Byte>)
    requires |sizes| >= 3 && Prefixable(cl) && OpSym(op) < |cl| && cl[OpSym(op)] >= 1
    requires OpOk(op, lens) && |lens| < sizes[0] + sizes[1] && op.Repeat?
    ensures Sizes(final, sizes, cl, lens, OpBits(cl, op) + rest, out)
         == Sizes(final, sizes, cl, Do(lens, op), rest, out)
  {
    var sym, field := op.sym, ToBits(op.extra, RepeatWidth(op.sym));
    Regroup(CodeBits(cl, sym), field, rest);
    RepeatSymbolRead(final, sizes, cl, lens, sym, field + rest, out);
    RepeatExtraRead(final, sizes, cl, lens, sym, op.extra, rest, out);
  }

  lemma PlainRead(final: bool, sizes: seq<nat>, cl: seq<nat>, lens: seq<nat>, l: nat, rest: seq<bool>, out: seq<Byte>)
    requires |sizes| >= 3 && Prefixable(cl) && l < 16 && l < |cl| && cl[l] >= 1 && |lens| < sizes[0] + sizes[1]
    ensures Sizes(final, sizes, cl, lens, CodeBits(cl, l) + rest, out) == Sizes(final, sizes, cl, lens + [l], rest, out)
  {
    CodeAhead(cl, l, rest);
  }

  lemma RepeatSymbolRead(final: bool, sizes: seq<nat>, cl: seq<nat>, lens: seq<nat>, sym: nat, rest: seq<bool>,
                         out: seq<Byte>)
    requires |sizes| >= 3 && Prefixable(cl) && 16 <= sym <= 18 && sym < |cl| && cl[sym] >= 1
    requires |lens| < sizes[0] + sizes[1] && (sym == 16 ==> lens != [])
    ensures Sizes(final, sizes, cl, lens, CodeBits(cl, sym) + rest, out)
         == RepeatBits(final, sizes, cl, lens, sym, rest, out)
  {
    CodeAhead(cl, sym, rest);
  }

  lemma RepeatExtraRead(final: bool, sizes: seq<nat>, cl: seq<nat>, lens: seq<nat>, sym: nat, extra: nat,
                        rest: seq<bool>, out: seq<Byte>)
    requires |sizes| >= 3 && 16 <= sym <= 18 && (sym == 16 ==> lens != []) && extra < Pow2(RepeatWidth(sym))
    ensures RepeatBits(final, sizes, cl, lens, sym, ToBits(extra, RepeatWidth(sym)) + rest, out)
         == Sizes(final, sizes, cl,
                  lens + Run(RepeatBase(sym) + extra, if sym == 16 then lens[|lens| - 1] else 0), rest, out)
  {
    FieldAhead(extra, RepeatWidth(sym), rest);
  }

  lemma {:induction false} OpsDecode(final: bool, sizes: seq<nat>, cl: seq<nat>, lens: seq<nat>, ops: seq<Op>,
                                     rest: seq<bool>, out: seq<Byte>)
    requires |sizes| >= 3 && Prefixable(cl) && OpsCoded(cl, ops) && OpsOk(ops, lens)
    requires |Unpack(lens, ops)| <= sizes[0] + sizes[1]
    ensures Sizes(final, sizes, cl, lens, OpsBits(cl, ops) + rest, out)
         == Sizes(final, sizes, cl, Unpack(lens, ops), rest, out)
    decreases |ops|
  {
    if ops == [] {
      assert OpsBits(cl, ops) + rest == rest;
    } else {
      TailCoded(cl, ops);
      var more := OpsBits(cl, ops[1..]) + rest;
      Regroup(OpBits(cl, ops[0]), OpsBits(cl, ops[1..]), rest);
      OpsGrow(lens, ops);
      OpDecodes(final, sizes, cl, lens, ops[0], more, out);
      OpsDecode(final, sizes, cl, Do(lens, ops[0]), ops[1..], rest, out);
      UnpackStep(lens, ops);
    }
  }

  lemma OpsGrow(lens: seq<nat>, ops: seq<Op>)
    requires ops != [] && OpsOk(ops, lens)
    ensures |lens| < |Do(lens, ops[0])| <= |Unpack(lens, ops)|
  {
  }

  lemma UnpackStep(lens: seq<nat>, ops: seq<Op>)
    requires ops != [] && OpsOk(ops, lens)
    ensures Unpack(lens, ops) == Unpack(Do(lens, ops[0]), ops[1..])
  {
  }

  // ---- The header of a dynamic block

  /** The code length code as transmitted: entries `i` up to `n` in header order. */
  function SwizzledBits(cl: seq<nat>, i: nat, n: nat): (s: seq<bool>)
    requires i <= n <= MAX_CODE_LENGTHS == |cl|
    decreases n - i
  {
    if i == n then [] else ToBits(cl[Swizzle(i)], 3) + SwizzledBits(cl, i + 1, n)
  }

  lemma {:induction false} SwizzledSnoc(cl: seq<nat>, i: nat, n: nat)
    requires i <= n < MAX_CODE_LENGTHS == |cl|
    ensures SwizzledBits(cl, i, n + 1) == SwizzledBits(cl, i, n) + ToBits(cl[Swizzle(n)], 3)
    decreases n - i
  {
    if i < n {
      SwizzledSnoc(cl, i + 1, n);
      Regroup(ToBits(cl[Swizzle(i)], 3), SwizzledBits(cl, i + 1, n), ToBits(cl[Swizzle(n)], 3));
    } else {
      assert SwizzledBits(cl, n + 1, n + 1) == [];
    }
  }

  /** The lengths received after `i` entries. */
  ghost predicate Received(cl: seq<nat>, got: seq<nat>, i: nat) {
    && |cl| == |got| == MAX_CODE_LENGTHS && i <= MAX_CODE_LENGTHS
    && (forall k :: 0 <= k < i ==> got[Swizzle(k)] == cl[Swizzle(k)])
    && (forall k :: i <= k < MAX_CODE_LENGTHS ==> got[Swizzle(k)] == 0)
  }

  function Unswizzle(sym: nat): (k: nat)
    requires sym < MAX_CODE_LENGTHS
    ensures k < MAX_CODE_LENGTHS && Swizzle(k) == sym
  {
    if sym == 0 then 3
    else if sym >= 16 then sym - 16
    else if sym >= 8 then 4 + 2 * (sym - 8)
    else 19 - 2 * sym
  }

  lemma SwizzleInjective(i: nat, k: nat)
    requires i < MAX_CODE_LENGTHS && k < MAX_CODE_LENGTHS && Swizzle(i) == Swizzle(k)
    ensures i == k
  {
  }

  lemma {:induction false} SwizzledDecode(final: bool, sizes: seq<nat>, i: nat, got: seq<nat>, cl: seq<nat>,
                                          rest: seq<bool>, out: seq<Byte>)
    requires |sizes| >= 3 && Received(cl, got, i) && i <= sizes[2] <= MAX_CODE_LENGTHS
    requires forall k :: 0 <= k < MAX_CODE_LENGTHS ==> cl[k] < 8
    requires forall k :: sizes[2] <= k < MAX_CODE_LENGTHS ==> cl[Swizzle(k)] == 0
    ensures CodeLengthSizes(final, sizes, i, got, SwizzledBits(cl, i, sizes[2]) + rest, out)
         == CodeLengthSizes(final, sizes, sizes[2], cl, rest, out)
    decreases sizes[2] - i
  {
    if i == sizes[2] {
      assert SwizzledBits(cl, i, i) + rest == rest;
      forall k | 0 <= k < MAX_CODE_LENGTHS ensures got[k] == cl[k] {
        assert got[Swizzle(Unswizzle(k))] == cl[Swizzle(Unswizzle(k))];
      }
      assert got == cl;
    } else {
      var v, more := cl[Swizzle(i)], SwizzledBits(cl, i + 1, sizes[2]) + rest;
      assert SwizzledBits(cl, i, sizes[2]) + rest == ToBits(v, 3) + more;
      SwizzledRead(final, sizes, i, got, v, more, out);
      OneMoreReceived(cl, got, i);
      SwizzledDecode(final, sizes, i + 1, got[Swizzle(i) := v], cl, rest, out);
    }
  }

  lemma SwizzledRead(final: bool, sizes: seq<nat>, i: nat, got: seq<nat>, v: nat, rest: seq<bool>, out: seq<Byte>)
    requires |sizes| >= 3 && |got| == MAX_CODE_LENGTHS && i < sizes[2] <= MAX_CODE_LENGTHS && v < 8
    ensures CodeLengthSizes(final, sizes, i, got, ToBits(v, 3) + rest, out)
         == CodeLengthSizes(final, sizes, i + 1, got[Swizzle(i) := v], rest, out)
  {
    assert Pow2(3) == 8;
    FieldAhead(v, 3, rest);
  }

  lemma OneMoreReceived(cl: seq<nat>, got: seq<nat>, i: nat)
    requires Received(cl, got, i) && i < MAX_CODE_LENGTHS
    ensures Received(cl, got[Swizzle(i) := cl[Swizzle(i)]], i + 1)
  {
    var next := got[Swizzle(i) := cl[Swizzle(i)]];
    forall k | 0 <= k < MAX_CODE_LENGTHS && k != i ensures next[Swizzle(k)] == got[Swizzle(k)] {
      if Swizzle(k) == Swizzle(i) {
        SwizzleInjective(i, k);
      }
    }
  }

  /** Everything a dynamic block's header says. */
  datatype Header = Header(cl: seq<nat>, n: nat, nlit: nat, ndist: nat, ops: seq<Op>)

  ghost predicate GoodHeader(h: Header, lens: seq<nat>) {
    (&& |h.cl| == MAX_CODE_LENGTHS && 4 <= h.n <= MAX_CODE_LENGTHS && Decodable(h.cl)
     && (forall k :: 0 <= k < MAX_CODE_LENGTHS ==> h.cl[k] < 8)
     && (forall k :: h.n <= k < MAX_CODE_LENGTHS ==> h.cl[Swizzle(k)] == 0)
     && 257 <= h.nlit <= 288 && 1 <= h.ndist <= 32 && |lens| == h.nlit + h.ndist
     && OpsCoded(h.cl, h.ops) && OpsOk(h.ops, []) && Unpack([], h.ops) == lens) == true
  }

  ghost function CountBits(h: Header): seq<bool>
    requires 257 <= h.nlit && 1 <= h.ndist && 4 <= h.n
  {
    ToBits(h.nlit - 257, 5) + ToBits(h.ndist - 1, 5) + ToBits(h.n - 4, 4)
  }

  ghost function HeaderBits(h: Header): seq<bool>
    requires |h.cl| == MAX_CODE_LENGTHS && 4 <= h.n <= MAX_CODE_LENGTHS && 257 <= h.nlit && 1 <= h.ndist
        && OpsCoded(h.cl, h.ops)
  {
    CountBits(h) + SwizzledBits(h.cl, 0, h.n) + OpsBits(h.cl, h.ops)
  }

  lemma CountsDecode(final: bool, h: Header, rest: seq<bool>, out: seq<Byte>)
    requires 257 <= h.nlit <= 288 && 1 <= h.ndist <= 32 && 4 <= h.n <= 19
    ensures DynamicHead(final, [], CountBits(h) + rest, out)
         == CodeLengthSizes(final, [h.nlit, h.ndist, h.n], 0, seq(MAX_CODE_LENGTHS, _ => 0), rest, out)
  {
    Pow2Values();
    var a, b, c := ToBits(h.nlit - 257, 5), ToBits(h.ndist - 1, 5), ToBits(h.n - 4, 4);
    assert CountBits(h) + rest == a + (b + (c + rest));
    assert [] + [h.nlit] == [h.nlit] && [h.nlit] + [h.ndist] == [h.nlit, h.ndist];
    assert [h.nlit, h.ndist] + [h.n] == [h.nlit, h.ndist, h.n];
    CountRead(final, [], h.nlit - 257, b + (c + rest), out);
    CountRead(final, [h.nlit], h.ndist - 1, c + rest, out);
    CountRead(final, [h.nlit, h.ndist], h.n - 4, rest, out);
    AllCountsRead(final, [h.nlit, h.ndist, h.n], rest, out);
  }

  lemma CountRead(final: bool, sizes: seq<nat>, v: nat, rest: seq<bool>, out: seq<Byte>)
    requires |sizes| < 3 && v < Pow2(HEAD_WIDTHS[|sizes|])
    ensures DynamicHead(final, sizes, ToBits(v, HEAD_WIDTHS[|sizes|]) + rest, out)
         == DynamicHead(final, sizes + [v + MIN_SIZES[|sizes|]], rest, out)
  {
    FieldAhead(v, HEAD_WIDTHS[|sizes|], rest);
  }

  lemma AllCountsRead(final: bool, sizes: seq<nat>, rest: seq<bool>, out: seq<Byte>)
    requires |sizes| == 3
    ensures DynamicHead(final, sizes, rest, out)
         == CodeLengthSizes(final, sizes, 0, seq(MAX_CODE_LENGTHS, _ => 0), rest, out)
  {
  }

  lemma HeaderDecodes(final: bool, h: Header, lens: seq<nat>, rest: seq<bool>, out: seq<Byte>)
    requires GoodHeader(h, lens) && Decodable(lens[..h.nlit]) && Decodable(lens[h.nlit..])
    ensures DynamicHead(final, [], HeaderBits(h) + rest, out)
         == Symbols(Codes(final, lens[..h.nlit], lens[h.nlit..]), rest, out)
  {
    var sizes := [h.nlit, h.ndist, h.n];
    var ops := OpsBits(h.cl, h.ops) + rest;
    var swz := SwizzledBits(h.cl, 0, h.n) + ops;
    assert HeaderBits(h) + rest == CountBits(h) + swz;
    CountsDecode(final, h, swz, out);
    SwizzledDecode(final, sizes, 0, seq(MAX_CODE_LENGTHS, _ => 0), h.cl, ops, out);
    OpsDecode(final, sizes, h.cl, [], h.ops, rest, out);
  }

  // ---- Whole blocks

  /** The three bits every block starts with. */
  function BlockStart(final: bool, kind: nat): (s: seq<bool>)
    ensures |s| == 3
  {
    [final] + ToBits(kind, 2)
  }

  lemma StartDecodes(final: bool, kind: nat, rest: seq<bool>)
    requires kind < 4
    ensures var bits := BlockStart(final, kind) + rest;
            |bits| >= 3 && bits[0] == final && Val(bits[1..], 2) == kind && bits[3..] == rest
  {
    var bits := BlockStart(final, kind) + rest;
    assert bits[1..] == ToBits(kind, 2) + rest;
    FieldAhead(kind, 2, rest);
  }

  /** A dynamic block decodes to the expansion of its tokens. */
  lemma DynamicBlockDecodes(final: bool, h: Header, lens: seq<nat>, ts: seq<Token>, rest: seq<bool>, out: seq<Byte>)
    requires GoodHeader(h, lens) && Decodable(lens[..h.nlit]) && Decodable(lens[h.nlit..]) && lens[256] >= 1
    requires AllEncodable(lens[..h.nlit], lens[h.nlit..], ts) && AllFit(ts, |out|)
    ensures Block(BlockStart(final, 2) + HeaderBits(h) + BodyBits(lens[..h.nlit], lens[h.nlit..], ts) + rest, out)
         == EndBlock(final, rest, Expand(out, ts))
  {
    var lit, dist := lens[..h.nlit], lens[h.nlit..];
    var body := BodyBits(lit, dist, ts) + rest;
    assert BlockStart(final, 2) + HeaderBits(h) + BodyBits(lit, dist, ts) + rest ==
        BlockStart(final, 2) + (HeaderBits(h) + body);
    StartDecodes(final, 2, HeaderBits(h) + body);
    HeaderDecodes(final, h, lens, body, out);
    BodyDecodes(Codes(final, lit, dist), ts, rest, out);
  }

  lemma {:induction false} CountRange(lens: seq<nat>, n: nat, l: nat, a: nat, b: nat)
    requires a <= n <= |lens| && a <= b
    requires forall i :: a <= i < n ==> (lens[i] == l <==> i < b)
    ensures CountUpTo(lens, n, l) == CountUpTo(lens, a, l) + (if n < b then n - a else b - a)
    decreases n
  {
    if a < n {
      CountRange(lens, n - 1, l, a, b);
    }
  }

  lemma FixedLitCounts(lit: seq<nat>, dist: seq<nat>, l: nat)
    requires FixedLengths(lit, dist)
    ensures Count(lit, l) == if l == 7 then 24 else if l == 8 then 152 else if l == 9 then 112 else 0
  {
    CountRange(lit, 144, l, 0, if l == 8 then 144 else 0);
    CountRange(lit, 256, l, 144, if l == 9 then 256 else 144);
    CountRange(lit, 280, l, 256, if l == 7 then 280 else 256);
    CountRange(lit, 288, l, 280, if l == 8 then 288 else 280);
  }

  lemma {:induction false} FirstIs(lens: seq<nat>, l: nat, m: nat)
    requires 1 <= l <= m && forall k :: l <= k < m ==> Count(lens, k) == 0
    ensures First(lens, m) == First(lens, l) * Pow2(m - l)
    decreases m
  {
    if l < m {
      FirstIs(lens, l, m - 1);
      assert m - l == 1 + (m - 1 - l);
      assert Pow2(m - l) == 2 * Pow2(m - 1 - l);
      MulDouble(First(lens, l), Pow2(m - 1 - l));
    }
  }

  lemma FixedLitFull(lit: seq<nat>, dist: seq<nat>)
    requires FixedLengths(lit, dist)
    ensures Full(lit)
  {
    forall l ensures Count(lit, l) == if l == 7 then 24 else if l == 8 then 152 else if l == 9 then 112 else 0 {
      FixedLitCounts(lit, dist, l);
    }
    FirstIs(lit, 1, 7);
    assert First(lit, 7) == 0;
    assert First(lit, 8) == 2 * (First(lit, 7) + 24) == 48;
    assert First(lit, 9) == 2 * (First(lit, 8) + 152) == 400;
    assert First(lit, 10) == 2 * (First(lit, 9) + 112) == 1024;
    FirstIs(lit, 10, 15);
    Pow2Values();
  }

  lemma FixedDistFull(lit: seq<nat>, dist: seq<nat>)
    requires FixedLengths(lit, dist)
    ensures Full(dist)
  {
    forall l ensures Count(dist, l) == if l == 5 then 32 else 0 {
      CountRange(dist, 32, l, 0, if l == 5 then 32 else 0);
    }
    FirstIs(dist, 1, 5);
    assert First(dist, 5) == 0;
    assert First(dist, 6) == 2 * (First(dist, 5) + 32) == 64;
    FirstIs(dist, 6, 15);
    Pow2Values();
    assert Pow2(9) == 2 * Pow2(8);
  }

  /** Tokens that could occur somewhere. */
  ghost predicate AllStorable(ts: seq<Token>) {
    forall i :: 0 <= i < |ts| ==> Fits(ts[i], MAX_DIST)
  }

  lemma FittingIsStorable(ts: seq<Token>, n: nat)
    requires AllFit(ts, n)
    ensures AllStorable(ts)
    decreases |ts|
  {
    if ts != [] {
      FittingIsStorable(ts[1..], n + Size(ts[0]));
    }
  }

  /** The fixed codes encode every token. */
  lemma FixedEncodes(lit: seq<nat>, dist: seq<nat>, ts: seq<Token>)
    requires FixedLengths(lit, dist) && AllStorable(ts)
    ensures AllEncodable(lit, dist, ts)
  {
  }

  /** A fixed block decodes to the expansion of its tokens. */
  lemma FixedBlockDecodes(final: bool, lit: seq<nat>, dist: seq<nat>, ts: seq<Token>, rest: seq<bool>, out: seq<Byte>)
    requires FixedLengths(lit, dist) && AllFit(ts, |out|)
    ensures AllEncodable(lit, dist, ts)
    ensures Block(BlockStart(final, 1) + BodyBits(lit, dist, ts) + rest, out) == EndBlock(final, rest, Expand(out, ts))
  {
    FittingIsStorable(ts, |out|);
    FixedEncodes(lit, dist, ts);
    FixedLitFull(lit, dist);
    FixedDistFull(lit, dist);
    var c, body := FixedCodes(final), BodyBits(lit, dist, ts) + rest;
    assert c.lit == lit && c.dist == dist;
    Regroup(BlockStart(final, 1), BodyBits(lit, dist, ts), rest);
    StartDecodes(final, 1, body);
    BodyDecodes(c, ts, rest, out);
  }

  // ---- Stored blocks

  function LengthHead(n: nat): (s: seq<bool>)
    requires n < 0x1_0000
    ensures |s| == 32
  {
    ToBits(n, 16) + ToBits(0xFFFF - n, 16)
  }

  lemma FourParts(a: seq<bool>, b: seq<bool>, c: seq<bool>, d: seq<bool>, rest: seq<bool>)
    ensures a + b + c + d + rest == a + (b + (c + (d + rest)))
  {
  }

  lemma LengthHeadBytes(n: nat)
    requires n < 0x1_0000
    ensures LengthHead(n) == ToBits(n % 256, 8) + ToBits(n / 256, 8)
        + ToBits((0xFFFF - n) % 256, 8) + ToBits((0xFFFF - n) / 256, 8)
  {
    Pow2Values();
    TwoBytes(n);
    TwoBytes(0xFFFF - n);
  }

  lemma TwoBytes(n: nat)
    requires n < 0x1_0000
    ensures ToBits(n, 16) == ToBits(n % 256, 8) + ToBits(n / 256, 8)
  {
    Pow2Values();
    ToBitsConcat(n % 256, 8, n / 256, 8);
  }

  lemma StoredHeadDecodes(final: bool, n: nat, rest: seq<bool>, out: seq<Byte>)
    requires n < 0x1_0000
    ensures StoredHead(final, [], LengthHead(n) + rest, out) == StoredBytes(final, n, rest, out)
  {
    Pow2Values();
    var m := 0xFFFF - n;
    var a, b, c, d := n % 256, n / 256, m % 256, m / 256;
    var r1, r2, r3 := ToBits(b, 8) + (ToBits(c, 8) + (ToBits(d, 8) + rest)), ToBits(c, 8) + (ToBits(d, 8) + rest),
        ToBits(d, 8) + rest;
    LengthHeadBytes(n);
    FourParts(ToBits(a, 8), ToBits(b, 8), ToBits(c, 8), ToBits(d, 8), rest);
    assert [] + [a] == [a] && [a] + [b] == [a, b] && [a, b] + [c] == [a, b, c] && [a, b, c] + [d] == [a, b, c, d];
    HeadByteRead(final, [], a, r1, out);
    HeadByteRead(final, [a], b, r2, out);
    HeadByteRead(final, [a, b], c, r3, out);
    HeadByteRead(final, [a, b, c], d, rest, out);
    HeadRead(final, [a, b, c, d], n, rest, out);
  }

  lemma HeadByteRead(final: bool, head: seq<nat>, b: nat, rest: seq<bool>, out: seq<Byte>)
    requires |head| < 4 && b < 256
    ensures StoredHead(final, head, ToBits(b, 8) + rest, out) == StoredHead(final, head + [b], rest, out)
  {
    Pow2Values();
    FieldAhead(b, 8, rest);
  }

  lemma HeadRead(final: bool, head: seq<nat>, n: nat, rest: seq<bool>, out: seq<Byte>)
    requires |head| == 4 && head[0] + 256 * head[1] == n && n + head[2] + 256 * head[3] == 0xFFFF
    ensures StoredHead(final, head, rest, out) == StoredBytes(final, n, rest, out)
  {
  }

  lemma {:induction false} StoredBytesDecode(final: bool, bs: seq<Byte>, rest: seq<bool>, out: seq<Byte>)
    ensures StoredBytes(final, |bs|, BytesToBits(bs) + rest, out) == EndBlock(final, rest, out + bs)
    decreases |bs|
  {
    if bs == [] {
      assert BytesToBits(bs) + rest == rest && out + bs == out;
    } else {
      Pow2Values();
      var more := BytesToBits(bs[1..]) + rest;
      assert BytesToBits(bs) + rest == ToBits(bs[0], 8) + more;
      FieldAhead(bs[0], 8, more);
      StoredBytesDecode(final, bs[1..], rest, out + [bs[0]]);
      assert out + [bs[0]] + bs[1..] == out + bs;
    }
  }

  /** Padding to the next byte boundary. */
  function Padding(n: nat): (s: seq<bool>)
    ensures |s| < 8 && (n + |s|) % 8 == 0
  {
    ToBits(0, (8 - n % 8) % 8)
  }

  lemma StillWhole(n: nat, m: nat)
    requires n % 8 == 0
    ensures (n + 32 + 8 * m) % 8 == 0
  {
    DivModUnique(n + 32 + 8 * m, 8, n / 8 + 4 + m, 0);
  }

  /** A stored block that starts at bit `at` of the stream. */
  function StoredBits(final: bool, at: nat, bs: seq<Byte>): (s: seq<bool>)
    requires |bs| < 0x1_0000
    ensures (at + |s|) % 8 == 0
  {
    var pad := Padding(at + 3);
    StillWhole(at + 3 + |pad|, |bs|);
    BlockStart(final, 0) + pad + LengthHead(|bs|) + BytesToBits(bs)
  }

  /** A stored block decodes to its bytes, wherever in the stream it starts. */
  lemma StoredBlockDecodes(final: bool, at: nat, bs: seq<Byte>, rest: seq<bool>, out: seq<Byte>)
    requires |bs| < 0x1_0000 && |rest| % 8 == 0
    ensures Block(StoredBits(final, at, bs) + rest, out) == EndBlock(final, rest, out + bs)
  {
    var pad, data := Padding(at + 3), BytesToBits(bs) + rest;
    var tail := pad + (LengthHead(|bs|) + data);
    FourParts(BlockStart(final, 0), pad, LengthHead(|bs|), BytesToBits(bs), rest);
    StartDecodes(final, 0, tail);
    SkipPadding(pad, LengthHead(|bs|) + data, 4 + |bs|, |rest|);
    StoredHeadDecodes(final, |bs|, data, out);
    StoredBytesDecode(final, bs, rest, out);
  }

  lemma SkipPadding(pad: seq<bool>, data: seq<bool>, k: nat, r: nat)
    requires |pad| < 8 && |data| == 8 * k + r && r % 8 == 0
    ensures |pad + data| % 8 == |pad| && (pad + data)[|pad|..] == data
  {
  }
  // ---- Compressed blocks of either kind

  /** The lengths encode all tokens and are what a decoder accepts. */
  ghost predicate GoodFor(ts: seq<Token>, L: seq<nat>, D: seq<nat>) {
    (&& |L| == 288 && |D| == 32 && Decodable(L) && Decodable(D) && AllEncodable(L, D, ts)
     && L[256] >= 1 && L[286] == L[287] == 0 && D[30] == D[31] == 0) == true
  }

  /** How a block is coded. */
  datatype Form = Static(L: seq<nat>, D: seq<nat>) | Dynamic(h: Header, L: seq<nat>, D: seq<nat>)

  ghost predicate GoodForm(f: Form, ts: seq<Token>) {
    match f
    case Static(L, D) => FixedLengths(L, D) && AllEncodable(L, D, ts)
    case Dynamic(h, L, D) => GoodDynamic(h, L, D, ts)
  }

  ghost predicate GoodDynamic(h: Header, L: seq<nat>, D: seq<nat>, ts: seq<Token>) {
    (&& GoodFor(ts, L, D) && 257 <= h.nlit <= 286 && 1 <= h.ndist <= 30 && GoodHeader(h, L[..h.nlit] + D[..h.ndist])
     && (forall i :: h.nlit <= i < 288 ==> L[i] == 0) && (forall i :: h.ndist <= i < 32 ==> D[i] == 0)) == true
  }

  /** The bits of a block after the one that says whether it is the last. */
  ghost function FormBits(f: Form, ts: seq<Token>): seq<bool>
    requires GoodForm(f, ts)
  {
    match f
    case Static(L, D) => ToBits(1, 2) + BodyBits(L, D, ts)
    case Dynamic(h, L, D) => ToBits(2, 2) + HeaderBits(h) + BodyBits(L, D, ts)
  }

  lemma DynamicDecodes(h: Header, L: seq<nat>, D: seq<nat>, final: bool, ts: seq<Token>, rest: seq<bool>,
                       out: seq<Byte>)
    requires GoodDynamic(h, L, D, ts) && AllFit(ts, |out|)
    ensures Block(BlockStart(final, 2) + HeaderBits(h) + BodyBits(L, D, ts) + rest, out) ==
        EndBlock(final, rest, Expand(out, ts))
  {
    var lens := L[..h.nlit] + D[..h.ndist];
    assert lens[..h.nlit] == L[..h.nlit] && lens[h.nlit..] == D[..h.ndist];
    TrimmedDecodable(L, h.nlit);
    TrimmedDecodable(D, h.ndist);
    TrimmedBody(L, D, h.nlit, h.ndist, ts);
    DynamicBlockDecodes(final, h, lens, ts, rest, out);
  }

  /** A compressed block decodes to the expansion of its tokens, whichever way it is coded. */
  lemma FormDecodes(f: Form, final: bool, ts: seq<Token>, rest: seq<bool>, out: seq<Byte>)
    requires GoodForm(f, ts) && AllFit(ts, |out|)
    ensures Block([final] + FormBits(f, ts) + rest, out) == EndBlock(final, rest, Expand(out, ts))
  {
    match f
    case Static(L, D) =>
      FixedBlockDecodes(final, L, D, ts, rest, out);
      Regroup([final], ToBits(1, 2), BodyBits(L, D, ts));
    case Dynamic(h, L, D) =>
      DynamicDecodes(h, L, D, final, ts, rest, out);
      Regroup([final], ToBits(2, 2), HeaderBits(h));
      Regroup([final], ToBits(2, 2) + HeaderBits(h), BodyBits(L, D, ts));
  }
}
