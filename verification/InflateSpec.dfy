/**
 What a DEFLATE bit string means (RFC 1951, section 3.2). Every function here is
 one reading position of the format: it is given the bits still to be read and
 the bytes produced so far, and says how decoding ends. A decoder may stop at any
 of these positions and go on later.
 */
module InflateSpec {
  import opened Bits
  import opened Canonical
  import opened DecodeTable
  import opened Tokens

  datatype Outcome = Done(out: seq<Byte>, rest: seq<bool>) | Failed

  const SWIZZLE: seq<nat> := [16, 17, 18, 0, 8, 7, 9, 6, 10, 5, 11, 4, 12, 3, 13, 2, 14, 1, 15]
  const HEAD_WIDTHS: seq<nat> := [5, 5, 4]
  const MIN_SIZES: seq<nat> := [257, 1, 4]
  const MAX_CODE_LENGTHS := 19

  /** `s_length_dezigzag`: where the `k`-th transmitted length of the code length code goes. */
  function Swizzle(k: nat): (sym: nat)
    requires k < MAX_CODE_LENGTHS
    ensures sym < MAX_CODE_LENGTHS
  {
    SWIZZLE[k]
  }

  /**
   The order of section 3.2.7 of RFC 1951: the three repeat symbols, 0, and then outwards
   from the middle, 8, 7, 9, 6, 10 and so on to 1 and 15.
   */
  lemma SwizzleOrder(k: nat)
    requires k < MAX_CODE_LENGTHS
    ensures Swizzle(k) ==
            if k < 3 then 16 + k
            else if k == 3 then 0
            else if k % 2 == 0 then 8 + (k - 4) / 2
            else 7 - (k - 5) / 2
  {
  }

  /** The next `n` bits as a number. */
  function Val(bits: seq<bool>, n: nat): (v: nat)
    requires n <= |bits|
    ensures v < Pow2(n)
  {
    FromBits(bits[..n])
  }

  /** What a block header needs to remember. */
  datatype Codes = Codes(final: bool, lit: seq<nat>, dist: seq<nat>)

  /** The fixed code lengths (section 3.2.6). */
  predicate FixedLengths(lit: seq<nat>, dist: seq<nat>) {
    && |lit| == 288 && |dist| == 32
    && (forall i :: 0 <= i < 288 ==> lit[i] == FixedSize(i))
    && (forall i :: 0 <= i < 32 ==> dist[i] == 5)
  }

  function FixedSize(i: nat): nat {
    if i < 144 then 8 else if i < 256 then 9 else if i < 280 then 7 else 8
  }

  function FixedCodes(final: bool): (c: Codes)
    ensures c.final == final && FixedLengths(c.lit, c.dist)
  {
    Codes(final, seq(288, i requires 0 <= i => FixedSize(i)), seq(32, _ => 5))
  }

  /** Start of a block. */
  ghost function Block(bits: seq<bool>, out: seq<Byte>): Outcome
    decreases |bits|, 10
  {
    if |bits| < 3 then Failed
    else
      var final, rest := bits[0], bits[3..];
      match Val(bits[1..], 2)
      case 0 => StoredHead(final, [], rest[|rest| % 8..], out)
      case 1 => Symbols(FixedCodes(final), rest, out)
      case 2 => DynamicHead(final, [], rest, out)
      case _ => Failed
  }

  ghost function EndBlock(final: bool, bits: seq<bool>, out: seq<Byte>): Outcome
    decreases |bits|, 11
  {
    if final then Done(out, bits) else Block(bits, out)
  }

  // ---- Stored blocks

  ghost function StoredHead(final: bool, head: seq<nat>, bits: seq<bool>, out: seq<Byte>): Outcome
    decreases |bits|, 13
  {
    if |head| < 4 then
      if |bits| < 8 then Failed else StoredHead(final, head + [Val(bits, 8)], bits[8..], out)
    else if head[0] + 256 * head[1] + head[2] + 256 * head[3] != 0xFFFF then Failed
    else StoredBytes(final, head[0] + 256 * head[1], bits, out)
  }

  ghost function StoredBytes(final: bool, n: nat, bits: seq<bool>, out: seq<Byte>): Outcome
    decreases |bits|, 12
  {
    Pow2Values();
    if n == 0 then EndBlock(final, bits, out)
    else if |bits| < 8 then Failed
    else StoredBytes(final, n - 1, bits[8..], out + [Val(bits, 8)])
  }

  // ---- Compressed data

  ghost function Symbols(c: Codes, bits: seq<bool>, out: seq<Byte>): Outcome
    decreases |bits|, 12
  {
    var sym := DecodeSym(c.lit, bits);
    if sym >= |c.lit| || !Next(c.lit, bits, sym) then Failed
    else
      var rest := bits[c.lit[sym]..];
      if sym < 256 then Symbols(c, rest, out + [sym])
      else if sym == 256 then EndBlock(c.final, rest, out)
      else if sym >= 286 then Failed
      else LengthBits(c, LENGTH_BASE[sym - 257], LENGTH_EXTRA[sym - 257], rest, out)
  }

  ghost function LengthBits(c: Codes, base: nat, extra: nat, bits: seq<bool>, out: seq<Byte>): Outcome
    decreases |bits|, 15
  {
    if |bits| < extra then Failed else Distance(c, base + Val(bits, extra), bits[extra..], out)
  }

  ghost function Distance(c: Codes, len: nat, bits: seq<bool>, out: seq<Byte>): Outcome
    decreases |bits|, 14
  {
    var sym := DecodeSym(c.dist, bits);
    if sym >= |c.dist| || !Next(c.dist, bits, sym) || sym >= 30 then Failed
    else DistanceBits(c, len, DIST_BASE[sym], DIST_EXTRA[sym], bits[c.dist[sym]..], out)
  }

  ghost function DistanceBits(c: Codes, len: nat, base: nat, extra: nat, bits: seq<bool>, out: seq<Byte>): Outcome
    decreases |bits|, 14
  {
    if |bits| < extra then Failed else Copying(c, len, base + Val(bits, extra), bits[extra..], out)
  }

  ghost function Copying(c: Codes, len: nat, dist: nat, bits: seq<bool>, out: seq<Byte>): Outcome
    decreases |bits|, 13
  {
    if 1 <= dist <= |out| then Symbols(c, bits, Copy(out, len, dist)) else Failed
  }

  // ---- Dynamic codes

  ghost function DynamicHead(final: bool, sizes: seq<nat>, bits: seq<bool>, out: seq<Byte>): Outcome
    decreases |bits|, 17
  {
    if |sizes| < 3 then
      var n := HEAD_WIDTHS[|sizes|];
      if |bits| < n then Failed else DynamicHead(final, sizes + [Val(bits, n) + MIN_SIZES[|sizes|]], bits[n..], out)
    else CodeLengthSizes(final, sizes, 0, seq(MAX_CODE_LENGTHS, _ => 0), bits, out)
  }

  /** The lengths of the code length code, in their peculiar order. */
  ghost function CodeLengthSizes(final: bool, sizes: seq<nat>, i: nat, lens: seq<nat>, bits: seq<bool>,
                                 out: seq<Byte>): Outcome
    requires |sizes| >= 3
    decreases |bits|, 16
  {
    if |lens| != MAX_CODE_LENGTHS || sizes[2] > MAX_CODE_LENGTHS then Failed
    else if i < sizes[2] then
      if |bits| < 3 then Failed
      else CodeLengthSizes(final, sizes, i + 1, lens[Swizzle(i) := Val(bits, 3)], bits[3..], out)
    else if Decodable(lens) then Sizes(final, sizes, lens, [], bits, out)
    else Failed
  }

  /** The code lengths of both codes, run-length coded (section 3.2.7). */
  ghost function Sizes(final: bool, sizes: seq<nat>, cl: seq<nat>, lens: seq<nat>, bits: seq<bool>,
                       out: seq<Byte>): Outcome
    requires |sizes| >= 3
    decreases |bits|, 15
  {
    if |lens| < sizes[0] + sizes[1] then
      var sym := DecodeSym(cl, bits);
      if sym >= |cl| || !Next(cl, bits, sym) then Failed
      else if sym < 16 then Sizes(final, sizes, cl, lens + [sym], bits[cl[sym]..], out)
      else if sym > 18 || (sym == 16 && lens == []) then Failed
      else RepeatBits(final, sizes, cl, lens, sym, bits[cl[sym]..], out)
    else if |lens| != sizes[0] + sizes[1] then Failed
    else
      var c := Codes(final, lens[..sizes[0]], lens[sizes[0]..]);
      if Decodable(c.lit) && Decodable(c.dist) then Symbols(c, bits, out) else Failed
  }

  /** How many extra bits symbols 16 to 18 take, and the shortest run they stand for. */
  function RepeatWidth(sym: nat): nat {
    if sym == 16 then 2 else if sym == 17 then 3 else 7
  }

  function RepeatBase(sym: nat): nat {
    if sym == 18 then 11 else 3
  }

  /** The shortest and the longest runs are those of section 3.2.7 of RFC 1951: 3 to 6, 3 to 10, and 11 to 138. */
  lemma RepeatRanges()
    ensures RepeatBase(16) == 3 && RepeatBase(16) + Pow2(RepeatWidth(16)) == 6 + 1
    ensures RepeatBase(17) == 3 && RepeatBase(17) + Pow2(RepeatWidth(17)) == 10 + 1
    ensures RepeatBase(18) == 11 && RepeatBase(18) + Pow2(RepeatWidth(18)) == 138 + 1
  {
    PowersTo13();
  }

  function Run(n: nat, x: nat): (s: seq<nat>)
    ensures |s| == n && forall i :: 0 <= i < n ==> s[i] == x
  {
    seq(n, _ => x)
  }

  ghost function RepeatBits(final: bool, sizes: seq<nat>, cl: seq<nat>, lens: seq<nat>, sym: nat, bits: seq<bool>,
                            out: seq<Byte>): Outcome
    requires |sizes| >= 3 && (sym == 16 ==> lens != [])
    decreases |bits|, 16
  {
    if |bits| < RepeatWidth(sym) then Failed
    else
      var n := RepeatBase(sym) + Val(bits, RepeatWidth(sym));
      Sizes(final, sizes, cl, lens + Run(n, if sym == 16 then lens[|lens| - 1] else 0), bits[RepeatWidth(sym)..], out)
  }

  /** A whole stream of bytes. */
  ghost function Inflate(bytes: seq<Byte>): Outcome {
    Block(BytesToBits(bytes), [])
  }
}
