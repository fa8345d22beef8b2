/**
 Literals and matches, what they expand to, and how lengths and distances are
 split into a symbol and extra bits (RFC 1951, section 3.2.5).
 */
module Tokens {
  import opened Bits

  const MIN_MATCH := 3
  const MAX_MATCH := 258
  const MAX_DIST := 32768

  datatype Token = Literal(b: Byte) | Match(len: nat, dist: nat)

  // ---- Expansion

  /** Appends `len` bytes, each a copy of the one `dist` back; source and target may overlap. */
  function Copy(out: seq<Byte>, len: nat, dist: nat): (r: seq<Byte>)
    requires 1 <= dist <= |out|
    ensures |r| == |out| + len && out <= r
    decreases len
  {
    if len == 0 then out else Copy(out + [out[|out| - dist]], len - 1, dist)
  }

  /** The token can be expanded after `n` bytes of output. */
  predicate Fits(t: Token, n: nat) {
    t.Match? ==> MIN_MATCH <= t.len <= MAX_MATCH && 1 <= t.dist <= MAX_DIST && t.dist <= n
  }

  function Size(t: Token): nat {
    if t.Literal? then 1 else t.len
  }

  function Apply(out: seq<Byte>, t: Token): (r: seq<Byte>)
    requires Fits(t, |out|)
    ensures |r| == |out| + Size(t) && out <= r
  {
    if t.Literal? then out + [t.b] else Copy(out, t.len, t.dist)
  }

  /** Every token of the list can be expanded in turn. */
  predicate AllFit(ts: seq<Token>, n: nat)
    decreases |ts|
  {
    ts == [] || (Fits(ts[0], n) && AllFit(ts[1..], n + Size(ts[0])))
  }

  lemma TailFits(ts: seq<Token>, out: seq<Byte>)
    requires ts != [] && AllFit(ts, |out|)
    ensures Fits(ts[0], |out|) && AllFit(ts[1..], |Apply(out, ts[0])|)
  {
  }

  function Expand(out: seq<Byte>, ts: seq<Token>): (r: seq<Byte>)
    requires AllFit(ts, |out|)
    ensures out <= r
    decreases |ts|
  {
    if ts == [] then out else Expand(Apply(out, ts[0]), ts[1..])
  }

  function TotalSize(ts: seq<Token>): nat {
    if ts == [] then 0 else Size(ts[0]) + TotalSize(ts[1..])
  }

  lemma {:induction false} ExpandSize(out: seq<Byte>, ts: seq<Token>)
    requires AllFit(ts, |out|)
    ensures |Expand(out, ts)| == |out| + TotalSize(ts)
    decreases |ts|
  {
    if ts != [] {
      ExpandSize(Apply(out, ts[0]), ts[1..]);
    }
  }

  /** Recording one more token extends the expansion by that token. */
  lemma {:induction false} ExpandSnoc(out: seq<Byte>, ts: seq<Token>, t: Token)
    requires AllFit(ts, |out|) && Fits(t, |Expand(out, ts)|)
    ensures AllFit(ts + [t], |out|) && Expand(out, ts + [t]) == Apply(Expand(out, ts), t)
    decreases |ts|
  {
    if ts == [] {
      assert ts + [t] == [t];
      assert [t][1..] == [];
    } else {
      ExpandSnoc(Apply(out, ts[0]), ts[1..], t);
      assert (ts + [t])[0] == ts[0] && (ts + [t])[1..] == ts[1..] + [t];
      ExpandStep(out, ts + [t]);
    }
  }

  lemma ExpandStep(out: seq<Byte>, ts: seq<Token>)
    requires ts != [] && Fits(ts[0], |out|) && AllFit(ts[1..], |Apply(out, ts[0])|)
    ensures AllFit(ts, |out|) && Expand(out, ts) == Expand(Apply(out, ts[0]), ts[1..])
  {
  }

  lemma {:induction false} TotalSizeSnoc(ts: seq<Token>, t: Token)
    ensures TotalSize(ts + [t]) == TotalSize(ts) + Size(t)
  {
    if ts == [] {
      assert ts + [t] == [t];
      assert [t][1..] == [];
    } else {
      assert (ts + [t])[1..] == ts[1..] + [t];
      TotalSizeSnoc(ts[1..], t);
    }
  }

  /** A run that repeats at distance `dist` is what a match expands to. */
  lemma {:induction false} CopyRepeats(out: seq<Byte>, len: nat, dist: nat, full: seq<Byte>)
    requires 1 <= dist <= |out| && out <= full && |full| == |out| + len
    requires forall i :: |out| <= i < |full| ==> full[i] == full[i - dist]
    ensures Copy(out, len, dist) == full
    decreases len
  {
    if len != 0 {
      var n := |out|;
      assert full[n] == full[n - dist] == out[n - dist];
      CopyRepeats(out + [out[n - dist]], len - 1, dist, full);
    }
  }

  // ---- Lengths as symbols

  /** `s_tdefl_len_sym`: the symbol for a match of length `m + 3`. */
  function LenSym(m: nat): (s: nat)
    requires m < 256
    ensures 257 <= s <= 285
  {
    if m < 8 then 257 + m
    else if m < 16 then 265 + (m - 8) / 2
    else if m < 32 then 269 + (m - 16) / 4
    else if m < 64 then 273 + (m - 32) / 8
    else if m < 128 then 277 + (m - 64) / 16
    else if m < 255 then 281 + (m - 128) / 32
    else 285
  }

  /** `s_tdefl_len_extra` */
  function LenExtra(m: nat): (e: nat)
    requires m < 256
    ensures e <= 5
  {
    if m < 8 then 0
    else if m < 16 then 1
    else if m < 32 then 2
    else if m < 64 then 3
    else if m < 128 then 4
    else if m < 255 then 5
    else 0
  }

  /** `s_length_base`, `s_length_extra`: what the decoder makes of symbol `257 + k`. */
  const LENGTH_BASE: seq<nat> :=
    [3, 4, 5, 6, 7, 8, 9, 10, 11, 13, 15, 17, 19, 23, 27, 31, 35, 43, 51, 59, 67, 83, 99, 115, 131, 163, 195, 227,
        258, 0, 0]
  const LENGTH_EXTRA: seq<nat> :=
    [0, 0, 0, 0, 0, 0, 0, 0, 1, 1, 1, 1, 2, 2, 2, 2, 3, 3, 3, 3, 4, 4, 4, 4, 5, 5, 5, 5, 0, 0, 0]

  /** `s_tdefl_small_dist_sym` and `s_tdefl_large_dist_sym`: the symbol for distance `d + 1`. */
  function DistSym(d: nat): (s: nat)
    requires d < MAX_DIST
    ensures s <= 29
  {
    if d < 4 then d
    else if d < 8 then 4 + (d - 4) / 2
    else if d < 16 then 6 + (d - 8) / 4
    else if d < 32 then 8 + (d - 16) / 8
    else if d < 64 then 10 + (d - 32) / 16
    else if d < 128 then 12 + (d - 64) / 32
    else if d < 256 then 14 + (d - 128) / 64
    else if d < 512 then 16 + (d - 256) / 128
    else LargeDistSym(d / 256)
  }

  /** `s_tdefl_large_dist_sym`, indexed by the distance's high byte. */
  function LargeDistSym(h: nat): (s: nat)
    requires 2 <= h < 128
    ensures 18 <= s <= 29
  {
    if h < 4 then 18 + (h - 2)
    else if h < 8 then 20 + (h - 4) / 2
    else if h < 16 then 22 + (h - 8) / 4
    else if h < 32 then 24 + (h - 16) / 8
    else if h < 64 then 26 + (h - 32) / 16
    else 28 + (h - 64) / 32
  }

  /** `s_tdefl_small_dist_extra` and `s_tdefl_large_dist_extra` */
  function DistExtra(d: nat): (e: nat)
    requires d < MAX_DIST
    ensures e <= 13
  {
    if d < 4 then 0
    else if d < 8 then 1
    else if d < 16 then 2
    else if d < 32 then 3
    else if d < 64 then 4
    else if d < 128 then 5
    else if d < 256 then 6
    else if d < 512 then 7
    else LargeDistExtra(d / 256)
  }

  function LargeDistExtra(h: nat): (e: nat)
    requires 2 <= h < 128
    ensures e <= 13
  {
    if h < 4 then 8
    else if h < 8 then 9
    else if h < 16 then 10
    else if h < 32 then 11
    else if h < 64 then 12
    else 13
  }

  const DIST_BASE: seq<nat> :=
    [1, 2, 3, 4, 5, 7, 9, 13, 17, 25, 33, 49, 65, 97, 129, 193, 257, 385, 513, 769, 1025, 1537,
     2049, 3073, 4097, 6145, 8193, 12289, 16385, 24577, 0, 0]
  const DIST_EXTRA: seq<nat> :=
    [0, 0, 0, 0, 1, 1, 2, 2, 3, 3, 4, 4, 5, 5, 6, 6, 7, 7, 8, 8, 9, 9, 10, 10, 11, 11, 12, 12, 13, 13]

  /** `s_dist_extra`: the two unused distance symbols take no extra bits. */
  function DistExtraBits(s: nat): nat {
    if s < 30 then DIST_EXTRA[s] else 0
  }

  /** What the tables say: base plus extra bits gives the length back. */
  lemma LengthRoundTrip(m: nat)
    requires m < 256
    ensures var k := LenSym(m) - 257;
            k < 29 && LENGTH_EXTRA[k] == LenExtra(m) && LENGTH_BASE[k] + Low(m, LenExtra(m)) == m + 3
  {
    PowersTo13();
    if m < 128 {
      LengthRoundTripLow(m);
    } else {
      LengthRoundTripHigh(m);
    }
  }

  /** Of the symbols that could start at or before a length, its symbol is the last: there is one coding of it. */
  lemma LengthSymIsLast(m: nat)
    requires m < 256
    ensures var k := LenSym(m) - 257; LENGTH_BASE[k] <= m + 3 && (k < 28 ==> m + 3 < LENGTH_BASE[k + 1])
  {
    if m < 64 {
      LowLengthSymIsLast(m);
    } else {
      HighLengthSymIsLast(m);
    }
  }

  lemma LowLengthSymIsLast(m: nat)
    requires m < 64
    ensures var k := LenSym(m) - 257; LENGTH_BASE[k] <= m + 3 < LENGTH_BASE[k + 1]
  {
  }

  lemma HighLengthSymIsLast(m: nat)
    requires 64 <= m < 256
    ensures var k := LenSym(m) - 257; LENGTH_BASE[k] <= m + 3 && (k < 28 ==> m + 3 < LENGTH_BASE[k + 1])
  {
  }

  lemma DistSymIsLast(d: nat)
    requires d < MAX_DIST
    ensures var s := DistSym(d); DIST_BASE[s] <= d + 1 && (s < 29 ==> d + 1 < DIST_BASE[s + 1])
  {
    if d < 64 {
      LowDistSymIsLast(d);
    } else if d < 512 {
      MiddleDistSymIsLast(d);
    } else {
      HighDistSymIsLast(d);
    }
  }

  lemma LowDistSymIsLast(d: nat)
    requires d < 64
    ensures var s := DistSym(d); DIST_BASE[s] <= d + 1 < DIST_BASE[s + 1]
  {
  }

  lemma MiddleDistSymIsLast(d: nat)
    requires 64 <= d < 512
    ensures var s := DistSym(d); DIST_BASE[s] <= d + 1 < DIST_BASE[s + 1]
  {
  }

  lemma HighDistSymIsLast(d: nat)
    requires 512 <= d < MAX_DIST
    ensures var s := DistSym(d); DIST_BASE[s] <= d + 1 && (s < 29 ==> d + 1 < DIST_BASE[s + 1])
  {
  }

  /**
   The length symbols of section 3.2.5 of RFC 1951: every base follows on what the symbol
   before it covers, each number of extra bits but the first serves four symbols, and the
   longest match has a symbol of its own.
   */
  lemma LengthTable(k: nat)
    requires k < 29
    ensures k == 0 ==> LENGTH_BASE[k] == 3
    ensures LENGTH_EXTRA[k] == if k < 8 || k == 28 then 0 else k / 4 - 1
    ensures k < 27 ==> LENGTH_BASE[k + 1] == LENGTH_BASE[k] + Pow2(LENGTH_EXTRA[k])
    ensures k == 28 ==> LENGTH_BASE[k] == 258
  {
    PowersTo13();
  }

  /** The distance symbols: the same with two symbols for each number of extra bits. */
  lemma DistTable(s: nat)
    requires s < 30
    ensures s == 0 ==> DIST_BASE[s] == 1
    ensures DIST_EXTRA[s] == if s < 4 then 0 else s / 2 - 1
    ensures s < 29 ==> DIST_BASE[s + 1] == DIST_BASE[s] + Pow2(DIST_EXTRA[s])
  {
    PowersTo13();
  }

  lemma PowersTo13()
    ensures Pow2(0) == 1 && Pow2(1) == 2 && Pow2(2) == 4 && Pow2(3) == 8 && Pow2(4) == 16 && Pow2(5) == 32
    ensures Pow2(6) == 64 && Pow2(7) == 128 && Pow2(8) == 256 && Pow2(9) == 512 && Pow2(10) == 1024
    ensures Pow2(11) == 2048 && Pow2(12) == 4096 && Pow2(13) == 8192
  {
  }

  lemma LengthRoundTripLow(m: nat)
    requires m < 128
    ensures var k := LenSym(m) - 257;
            k < 29 && LENGTH_EXTRA[k] == LenExtra(m) && LENGTH_BASE[k] + Low(m, LenExtra(m)) == m + 3
  {
    PowersTo13();
  }

  lemma LengthRoundTripHigh(m: nat)
    requires 128 <= m < 256
    ensures var k := LenSym(m) - 257;
            k < 29 && LENGTH_EXTRA[k] == LenExtra(m) && LENGTH_BASE[k] + Low(m, LenExtra(m)) == m + 3
  {
    PowersTo13();
  }

  lemma DistRoundTripTiny(d: nat)
    requires d < 16
    ensures var s := DistSym(d);
            DistExtraBits(s) == DistExtra(d) && DIST_BASE[s] + Low(d, DistExtra(d)) == d + 1
  {
    PowersTo13();
  }

  lemma DistRoundTripSmall(d: nat)
    requires 16 <= d < 64
    ensures var s := DistSym(d);
            DistExtraBits(s) == DistExtra(d) && DIST_BASE[s] + Low(d, DistExtra(d)) == d + 1
  {
    PowersTo13();
  }

  lemma DistRoundTripMiddle(d: nat)
    requires 64 <= d < 512
    ensures var s := DistSym(d);
            DistExtraBits(s) == DistExtra(d) && DIST_BASE[s] + Low(d, DistExtra(d)) == d + 1
  {
    PowersTo13();
  }

  lemma DistRoundTripLarge(d: nat)
    requires 512 <= d < 4096
    ensures var s := DistSym(d);
            DistExtraBits(s) == DistExtra(d) && DIST_BASE[s] + Low(d, DistExtra(d)) == d + 1
  {
    PowersTo13();
  }

  lemma DistRoundTripHuge(d: nat)
    requires 4096 <= d < MAX_DIST
    ensures var s := DistSym(d);
            DistExtraBits(s) == DistExtra(d) && DIST_BASE[s] + Low(d, DistExtra(d)) == d + 1
  {
    PowersTo13();
  }

  lemma DistRoundTrip(d: nat)
    requires d < MAX_DIST
    ensures var s := DistSym(d);
            DistExtraBits(s) == DistExtra(d) && DIST_BASE[s] + Low(d, DistExtra(d)) == d + 1
  {
    if d < 16 {
      DistRoundTripTiny(d);
    } else if d < 64 {
      DistRoundTripSmall(d);
    } else if d < 512 {
      DistRoundTripMiddle(d);
    } else if d < 4096 {
      DistRoundTripLarge(d);
    } else {
      DistRoundTripHuge(d);
    }
  }
}
