/**
 `m_lz_code_buf`: recorded literals and matches, eight to a flag byte, and the
 symbol counts kept beside them.
 */
module LzBuffer {
  import opened Bits
  import opened MergeTree
  import opened MinRedundancy
  import opened Tokens
  import opened BlockBits
  import opened CodeLengths

  /** TDEFL_LZ_CODE_BUF_SIZE */
  const CODE_BUF_SIZE := 0x1_0000

  // ---- Tokens as bytes

  function TokenBytes(t: Token): (s: seq<Byte>)
    requires Fits(t, MAX_DIST)
  {
    match t
    case Literal(b) => [b]
    case Match(len, d) => [len - MIN_MATCH, (d - 1) % 256, (d - 1) / 256]
  }

  ghost function TokensBytes(ts: seq<Token>): (s: seq<Byte>)
    requires AllStorable(ts)
  {
    if ts == [] then [] else TokenBytes(ts[0]) + TokensBytes(ts[1..])
  }

  lemma {:induction false} TokensBytesSnoc(ts: seq<Token>, t: Token)
    requires AllStorable(ts) && Fits(t, MAX_DIST)
    ensures AllStorable(ts + [t]) && TokensBytes(ts + [t]) == TokensBytes(ts) + TokenBytes(t)
  {
    if ts == [] {
      assert ts + [t] == [t];
      assert [t][1..] == [];
    } else {
      assert (ts + [t])[1..] == ts[1..] + [t];
      TokensBytesSnoc(ts[1..], t);
      Regroup(TokenBytes(ts[0]), TokensBytes(ts[1..]), TokenBytes(t));
    }
  }

  function Flags(ts: seq<Token>): (s: seq<bool>)
    ensures |s| == |ts|
  {
    seq(|ts|, i requires 0 <= i < |ts| => ts[i].Match?)
  }

  /**
   Reading `ts` with `flags` at hand uses up exactly `bytes` and leaves the flags
   `left`: a flag byte is read whenever the flags run out.
   */
  ghost predicate Segment(bytes: seq<Byte>, flags: seq<bool>, ts: seq<Token>, left: seq<bool>)
    decreases |ts|, if flags == [] then 1 else 0
  {
    if ts == [] then bytes == [] && flags == left
    else if flags == [] then bytes != [] && Segment(bytes[1..], ToBits(bytes[0], 8), ts, left)
    else
      && Fits(ts[0], MAX_DIST) && flags[0] == ts[0].Match? && TokenBytes(ts[0]) <= bytes
      && Segment(bytes[|TokenBytes(ts[0])|..], flags[1..], ts[1..], left)
  }

  lemma {:induction false} SegmentConcat(a: seq<Byte>, f: seq<bool>, s: seq<Token>, g: seq<bool>, b: seq<Byte>,
                                         t: seq<Token>, h: seq<bool>)
    requires Segment(a, f, s, g) && Segment(b, g, t, h)
    ensures Segment(a + b, f, s + t, h)
    decreases |s|, if f == [] then 1 else 0
  {
    if s == [] {
      assert a + b == b && s + t == t;
    } else if f == [] {
      SegmentConcat(a[1..], ToBits(a[0], 8), s, g, b, t, h);
      TailOfConcat(a, b, 1);
      FlagsAhead(a + b, s + t, h);
    } else {
      var k := |TokenBytes(s[0])|;
      SegmentConcat(a[k..], f[1..], s[1..], g, b, t, h);
      TailOfConcat(a, b, k);
      TailOfConcat(s, t, 1);
      TokenAhead(a + b, f, s + t, h);
    }
  }

  lemma TailOfConcat<T>(a: seq<T>, b: seq<T>, k: nat)
    requires k <= |a|
    ensures (a + b)[k..] == a[k..] + b && a <= a + b
  {
  }

  lemma FlagsAhead(a: seq<Byte>, s: seq<Token>, h: seq<bool>)
    requires s != [] && a != [] && Segment(a[1..], ToBits(a[0], 8), s, h)
    ensures Segment(a, [], s, h)
  {
  }

  lemma TokenAhead(a: seq<Byte>, f: seq<bool>, s: seq<Token>, h: seq<bool>)
    requires s != [] && f != [] && Fits(s[0], MAX_DIST) && f[0] == s[0].Match? && TokenBytes(s[0]) <= a
    requires Segment(a[|TokenBytes(s[0])|..], f[1..], s[1..], h)
    ensures Segment(a, f, s, h)
  {
  }

  /** Token bytes with enough flags at hand. */
  lemma {:induction false} SegmentOfTokens(ts: seq<Token>, flags: seq<bool>)
    requires AllStorable(ts) && |ts| <= |flags| && flags[..|ts|] == Flags(ts)
    ensures Segment(TokensBytes(ts), flags, ts, flags[|ts|..])
  {
    if ts != [] {
      assert flags[0] == flags[..|ts|][0];
      assert flags[1..][..|ts| - 1] == flags[..|ts|][1..] == Flags(ts[1..]);
      SegmentOfTokens(ts[1..], flags[1..]);
      assert TokensBytes(ts)[|TokenBytes(ts[0])|..] == TokensBytes(ts[1..]);
      assert flags[1..][|ts| - 1..] == flags[|ts|..];
    } else {
      assert flags[0..] == flags;
    }
  }

  /** One flag byte and its tokens. */
  lemma GroupSegment(flag: Byte, ts: seq<Token>)
    requires 1 <= |ts| <= 8 && AllStorable(ts) && ToBits(flag, 8)[..|ts|] == Flags(ts)
    ensures Segment([flag] + TokensBytes(ts), [], ts, ToBits(flag, 8)[|ts|..])
  {
    SegmentOfTokens(ts, ToBits(flag, 8));
    assert ([flag] + TokensBytes(ts))[1..] == TokensBytes(ts);
  }

  lemma GroupCloses(bytes: seq<Byte>, flag: Byte, ts: seq<Token>, group: seq<Token>)
    requires Segment(bytes, [], ts, []) && |group| == 8 && AllStorable(group) && ToBits(flag, 8) == Flags(group)
    ensures Segment(bytes + ([flag] + TokensBytes(group)), [], ts + group, [])
  {
    assert ToBits(flag, 8)[..8] == ToBits(flag, 8) && ToBits(flag, 8)[8..] == [];
    GroupSegment(flag, group);
    SegmentConcat(bytes, [], ts, [], [flag] + TokensBytes(group), group, []);
  }

  lemma LastGroup(bytes: seq<Byte>, flag: Byte, ts: seq<Token>, group: seq<Token>)
    requires Segment(bytes, [], ts, []) && 1 <= |group| <= 8 && AllStorable(group)
    requires ToBits(flag, 8)[..|group|] == Flags(group)
    ensures Segment(bytes + ([flag] + TokensBytes(group)), [], ts + group, ToBits(flag, 8)[|group|..])
  {
    GroupSegment(flag, group);
    SegmentConcat(bytes, [], ts, [], [flag] + TokensBytes(group), group, ToBits(flag, 8)[|group|..]);
  }

  // ---- Symbol counts

  function LitSym(t: Token): (s: nat)
    requires Fits(t, MAX_DIST)
    ensures s < 286 && s != 256
  {
    if t.Literal? then t.b else LenSym(t.len - MIN_MATCH)
  }

  /** How many tokens use literal/length symbol `sym`. */
  ghost function LitUses(ts: seq<Token>, sym: nat): (n: nat)
    requires AllStorable(ts)
    ensures n <= |ts|
  {
    if ts == [] then 0
    else LitUses(ts[..|ts| - 1], sym) + (if LitSym(ts[|ts| - 1]) == sym then 1 else 0)
  }

  ghost function DistUses(ts: seq<Token>, sym: nat): (n: nat)
    requires AllStorable(ts)
    ensures n <= |ts|
  {
    if ts == [] then 0
    else
      var t := ts[|ts| - 1];
      DistUses(ts[..|ts| - 1], sym) + (if t.Match? && DistSym(t.dist - 1) == sym then 1 else 0)
  }

  lemma UsesSnoc(ts: seq<Token>, t: Token, sym: nat)
    requires AllStorable(ts) && Fits(t, MAX_DIST)
    ensures AllStorable(ts + [t])
    ensures LitUses(ts + [t], sym) == LitUses(ts, sym) + (if LitSym(t) == sym then 1 else 0)
    ensures DistUses(ts + [t], sym) == DistUses(ts, sym) + (if t.Match? && DistSym(t.dist - 1) == sym then 1 else 0)
  {
    assert (ts + [t])[..|ts|] == ts;
  }

  /** The reserved symbols are never used. */
  lemma {:induction false} ReservedUnused(ts: seq<Token>, sym: nat)
    requires AllStorable(ts)
    ensures sym >= 286 || sym == 256 ==> LitUses(ts, sym) == 0
    ensures sym >= 30 ==> DistUses(ts, sym) == 0
  {
    if ts != [] {
      ReservedUnused(ts[..|ts| - 1], sym);
    }
  }

  /** Every recorded token has its symbols counted. */
  lemma {:induction false} TokenIsCounted(ts: seq<Token>, i: nat)
    requires AllStorable(ts) && i < |ts|
    ensures LitUses(ts, LitSym(ts[i])) >= 1
    ensures ts[i].Match? ==> DistUses(ts, DistSym(ts[i].dist - 1)) >= 1
  {
    var k := |ts| - 1;
    if i < k {
      TokenIsCounted(ts[..k], i);
    }
  }

  /** `counts` holds the number of uses of every symbol, `total` in all. */
  ghost predicate CountsLit(counts: seq<U16>, ts: seq<Token>)
    requires AllStorable(ts)
  {
    (|counts| == 288 && Sum(counts) == |ts| && forall s :: 0 <= s < 288 ==> counts[s] == LitUses(ts, s)) == true
  }

  ghost predicate CountsDist(counts: seq<U16>, ts: seq<Token>)
    requires AllStorable(ts)
  {
    (|counts| == 32 && Sum(counts) <= |ts| && forall s :: 0 <= s < 32 ==> counts[s] == DistUses(ts, s)) == true
  }

  lemma CountLit(counts: seq<U16>, ts: seq<Token>, t: Token)
    requires AllStorable(ts) && Fits(t, MAX_DIST) && |ts| < 0xFFFF && CountsLit(counts, ts)
    ensures AllStorable(ts + [t]) && counts[LitSym(t)] < 0xFFFF
    ensures CountsLit(counts[LitSym(t) := counts[LitSym(t)] + 1], ts + [t])
  {
    UsesSnoc(ts, t, 0);
    var sym := LitSym(t);
    assert counts[sym] == LitUses(ts, sym);
    SumUpdate(counts, sym, counts[sym] + 1);
    forall s | 0 <= s < 288
      ensures counts[sym := counts[sym] + 1][s] == LitUses(ts + [t], s)
    {
      assert counts[s] == LitUses(ts, s);
      UsesSnoc(ts, t, s);
    }
  }

  lemma CountDist(counts: seq<U16>, ts: seq<Token>, t: Token)
    requires AllStorable(ts) && Fits(t, MAX_DIST) && t.Match? && |ts| < 0xFFFF && CountsDist(counts, ts)
    ensures AllStorable(ts + [t]) && counts[DistSym(t.dist - 1)] < 0xFFFF
    ensures CountsDist(counts[DistSym(t.dist - 1) := counts[DistSym(t.dist - 1)] + 1], ts + [t])
  {
    UsesSnoc(ts, t, 0);
    var sym := DistSym(t.dist - 1);
    assert counts[sym] == DistUses(ts, sym);
    SumUpdate(counts, sym, counts[sym] + 1);
    forall s | 0 <= s < 32
      ensures counts[sym := counts[sym] + 1][s] == DistUses(ts + [t], s)
    {
      assert counts[s] == DistUses(ts, s);
      UsesSnoc(ts, t, s);
    }
  }

  lemma NoDist(counts: seq<U16>, ts: seq<Token>, t: Token)
    requires AllStorable(ts) && Fits(t, MAX_DIST) && t.Literal? && CountsDist(counts, ts)
    ensures AllStorable(ts + [t]) && CountsDist(counts, ts + [t])
  {
    UsesSnoc(ts, t, 0);
    forall s | 0 <= s < 32 ensures counts[s] == DistUses(ts + [t], s) {
      assert counts[s] == DistUses(ts, s);
      UsesSnoc(ts, t, s);
    }
  }

  // ---- The flag byte

  /** `*flags = *flags >> 1 | (match ? 0x80 : 0)` */
  function ShiftFlag(flag: Byte, match': bool): (r: Byte) {
    flag / 2 + (if match' then 128 else 0)
  }

  lemma ShiftFlagBits(flag: Byte, match': bool)
    ensures ToBits(ShiftFlag(flag, match'), 8) == ToBits(flag, 8)[1..] + [match']
  {
    Pow2Values();
    var b := if match' then 1 else 0;
    assert 7 + 1 == 8 && 1 + 7 == 8;
    assert Pow2(1) == 2 && Pow2(0) == 1;
    ToBitsConcat(flag / 2, 7, b, 1);
    ToBitsSplit(flag, 1, 7);
    LowHigh(flag, 1);
    assert High(flag, 1) == flag / 2;
    assert ToBits(b, 1) == [match'] + ToBits(b / 2, 0);
  }

  /** The last flag byte is shifted down so that its flags start at bit 0. */
  lemma FinalFlagBits(flag: Byte, left: nat)
    requires left <= 8
    ensures High(flag, left) < 256 && ToBits(High(flag, left), 8)[..8 - left] == ToBits(flag, 8)[left..]
  {
    Pow2Values();
    ToBitsSplit(flag, left, 8 - left);
    assert left + (8 - left) == 8;
    LowHigh(flag, left);
    HighIsLess(Low(flag, left), High(flag, left), Pow2(left));
    ToBitsSplit(High(flag, left), 8 - left, left);
    assert (8 - left) + left == 8;
    ToBitsLow(High(flag, left), 8 - left);
  }

  lemma HighIsLess(low: nat, high: nat, p: nat)
    requires p >= 1
    ensures high <= low + high * p
  {
    MulMono(high, 1, p);
  }

  // ---- The buffer

  /** The bytes of the tokens, a byte of flags for every eight of them, and one more that is open. */
  ghost function CodeSize(ts: seq<Token>): nat
    requires AllStorable(ts)
  {
    1 + |ts| / 8 + |TokensBytes(ts)|
  }

  /** The recorded tokens and everything derived from them. */
  class Buffer {
    const buf: array<Byte>
    const litCount: array<U16>
    const distCount: array<U16>
    var codePos: nat
    var flagPos: nat
    var flagsLeft: nat
    var totalBytes: nat
    ghost var closed: seq<Token>
    ghost var open: seq<Token>

    ghost function Tokens(): seq<Token>
      reads this
    {
      closed + open
    }

    ghost predicate Shape() {
      (&& buf.Length == CODE_BUF_SIZE && litCount.Length == distCount.Length == 288
       && litCount != distCount && buf as object != litCount as object && buf as object != distCount as object) == true
    }

    /** The bytes hold the tokens: full groups, then the open one. */
    ghost predicate BytesHold()
      reads this, buf
    {
      (&& Shape() && flagPos < codePos <= CODE_BUF_SIZE
       && AllStorable(closed) && AllStorable(open) && |closed| % 8 == 0
       && |open| <= 8 && flagsLeft == 8 - |open|
       && Segment(buf[..flagPos], [], closed, [])
       && buf[flagPos + 1..codePos] == TokensBytes(open)
       && ToBits(buf[flagPos], 8)[flagsLeft..] == Flags(open)) == true
    }

    ghost predicate CountsHold()
      reads this, litCount, distCount
    {
      (&& Shape() && AllStorable(Tokens())
       && CountsLit(litCount[..288], Tokens()) && CountsDist(distCount[..32], Tokens())) == true
    }

    ghost predicate SizesHold()
      reads this
    {
      (&& AllStorable(Tokens()) && totalBytes == TotalSize(Tokens())
       && 8 * codePos == 8 + |closed| + 8 * |TokensBytes(Tokens())|) == true
    }

    ghost predicate Valid()
      reads this, buf, litCount, distCount
    {
      (BytesHold() && CountsHold() && SizesHold() && |open| < 8) == true
    }

    /** Nothing is recorded. */
    ghost predicate Empty()
      reads this, buf, litCount, distCount
    {
      (Valid() && Tokens() == [] && codePos == 1) == true
    }

    constructor (litCount: array<U16>, distCount: array<U16>)
      requires litCount.Length == distCount.Length == 288 && litCount != distCount
      requires forall i :: 0 <= i < 288 ==> litCount[i] == distCount[i] == 0
      ensures Empty() && fresh(buf) && this.litCount == litCount && this.distCount == distCount
    {
      buf := new Byte[CODE_BUF_SIZE];
      this.litCount, this.distCount := litCount, distCount;
      codePos, flagPos, flagsLeft, totalBytes := 1, 0, 8, 0;
      closed, open := [], [];
      new;
      NothingCounted();
      NoBytes();
    }

    lemma NothingCounted()
      requires Shape() && closed == open == []
      requires forall i :: 0 <= i < 288 ==> litCount[i] == 0
      requires forall i :: 0 <= i < 32 ==> distCount[i] == 0
      ensures CountsHold()
    {
      SumZero(litCount[..288]);
      SumZero(distCount[..32]);
      assert Tokens() == [];
    }

    lemma NoBytes()
      requires Shape() && closed == open == [] && codePos == 1 && flagPos == 0 && flagsLeft == 8 && totalBytes == 0
      ensures BytesHold() && SizesHold()
    {
      assert Tokens() == [];
      assert buf[..0] == [] && buf[1..1] == [] && ToBits(buf[0], 8)[8..] == [] && Flags([]) == [];
    }

    // ---- Recording

    /** Shifts the next flag in; the token's bytes have just been stored. */
    method PushFlag(ghost t: Token, match': bool)
      requires Shape() && flagPos < codePos <= CODE_BUF_SIZE && 1 <= flagsLeft <= 8
      requires Fits(t, MAX_DIST) && match' == t.Match? && AllStorable(open)
      requires buf[flagPos + 1..codePos] == TokensBytes(open) + TokenBytes(t)
      requires ToBits(buf[flagPos], 8)[flagsLeft..] == Flags(open)
      modifies this`flagsLeft, this`open, buf
      ensures flagsLeft == old(flagsLeft) - 1 && open == old(open) + [t] && AllStorable(open)
      ensures buf[..flagPos] == old(buf[..flagPos]) && buf[flagPos + 1..codePos] == TokensBytes(open)
      ensures ToBits(buf[flagPos], 8)[flagsLeft..] == Flags(open)
    {
      FlagShifted(buf[flagPos], flagsLeft, t);
      TokensBytesSnoc(open, t);
      SetByte(flagPos, codePos, ShiftFlag(buf[flagPos], match'));
      flagsLeft := flagsLeft - 1;
      open := open + [t];
    }

    lemma FlagShifted(flag: Byte, left: nat, t: Token)
      requires 1 <= left <= 8 && ToBits(flag, 8)[left..] == Flags(open)
      ensures ToBits(ShiftFlag(flag, t.Match?), 8)[left - 1..] == Flags(open + [t])
    {
      var bits := ToBits(flag, 8);
      ShiftFlagBits(flag, t.Match?);
      assert Flags(open + [t]) == Flags(open) + [t.Match?];
      assert (bits[1..] + [t.Match?])[left - 1..] == bits[left..] + [t.Match?];
    }

    method SetByte(i: nat, j: nat, b: Byte)
      requires i < j <= buf.Length
      modifies buf
      ensures buf[i] == b && buf[..i] == old(buf[..i]) && buf[i + 1..j] == old(buf[i + 1..j])
    {
      buf[i] := b;
    }

    /** Starts a new group once eight flags are in. */
    method CloseGroup()
      requires BytesHold() && codePos < CODE_BUF_SIZE && |open| == 8
      modifies this`flagsLeft, this`flagPos, this`codePos, this`closed, this`open
      ensures BytesHold() && open == [] && Tokens() == old(Tokens()) && |closed| == |old(closed)| + 8
      ensures codePos == old(codePos) + 1
    {
      assert ToBits(buf[flagPos], 8)[0..] == ToBits(buf[flagPos], 8);
      GroupCloses(buf[..flagPos], buf[flagPos], closed, open);
      JoinBytes(flagPos, codePos);
      closed, open := closed + open, [];
      flagsLeft := 8;
      flagPos := codePos;
      codePos := codePos + 1;
      assert buf[flagPos + 1..codePos] == [] && ToBits(buf[flagPos], 8)[8..] == [] && Flags([]) == [];
    }

    /** The token's bytes go behind those of the open group. */
    method StoreBytes(t: Token)
      requires Shape() && flagPos < codePos && Fits(t, MAX_DIST) && codePos + |TokenBytes(t)| <= CODE_BUF_SIZE
      modifies this`codePos, buf
      ensures codePos == old(codePos) + |TokenBytes(t)| && buf[..flagPos + 1] == old(buf[..flagPos + 1])
      ensures buf[flagPos + 1..codePos] == old(buf[flagPos + 1..codePos]) + TokenBytes(t)
    {
      match t
      case Literal(b) =>
        StoreLiteral(b);
      case Match(len, dist) =>
        StoreMatch(len - MIN_MATCH, dist - 1);
    }

    method StoreLiteral(b: Byte)
      requires Shape() && flagPos < codePos < CODE_BUF_SIZE
      modifies this`codePos, buf
      ensures codePos == old(codePos) + 1 && buf[..flagPos + 1] == old(buf[..flagPos + 1])
      ensures buf[flagPos + 1..codePos] == old(buf[flagPos + 1..codePos]) + [b]
    {
      ghost var at, before := codePos, buf[..];
      buf[codePos] := b;
      codePos := codePos + 1;
      Stored(before, buf[..], at, [b]);
    }

    method StoreMatch(len: Byte, d: nat)
      requires Shape() && flagPos < codePos && codePos + 3 <= CODE_BUF_SIZE && d < MAX_DIST
      modifies this`codePos, buf
      ensures codePos == old(codePos) + 3 && buf[..flagPos + 1] == old(buf[..flagPos + 1])
      ensures buf[flagPos + 1..codePos] == old(buf[flagPos + 1..codePos]) + [len, d % 256, d / 256]
    {
      ghost var at, before := codePos, buf[..];
      buf[codePos] := len;
      buf[codePos + 1] := d % 256;
      buf[codePos + 2] := d / 256;
      codePos := codePos + 3;
      Stored(before, buf[..], at, [len, d % 256, d / 256]);
    }

    lemma Stored(before: seq<Byte>, after: seq<Byte>, at: nat, bs: seq<Byte>)
      requires |before| == |after| && flagPos < at && at + |bs| <= |after|
      requires forall i :: 0 <= i < at ==> after[i] == before[i]
      requires forall i :: 0 <= i < |bs| ==> after[at + i] == bs[i]
      ensures after[..flagPos + 1] == before[..flagPos + 1]
      ensures after[flagPos + 1..at + |bs|] == before[flagPos + 1..at] + bs
    {
    }

    /** The bytes and the flag of one token. */
    method StoreToken(t: Token)
      requires BytesHold() && |open| < 8 && Fits(t, MAX_DIST) && codePos + |TokenBytes(t)| < CODE_BUF_SIZE
      modifies this`codePos, this`flagsLeft, this`open, buf
      ensures BytesHold() && open == old(open) + [t] && codePos == old(codePos) + |TokenBytes(t)|
    {
      StoreBytes(t);
      assert buf[..flagPos + 1][..flagPos] == buf[..flagPos] && buf[..flagPos + 1][flagPos] == buf[flagPos];
      PushFlag(t, t.Match?);
    }

    /** Records one token in the buffer. */
    method PushToken(t: Token)
      requires Valid() && Fits(t, MAX_DIST) && codePos + |TokenBytes(t)| < CODE_BUF_SIZE
      modifies this`codePos, this`flagPos, this`flagsLeft, this`totalBytes, this`closed, this`open, buf
      ensures BytesHold() && |open| < 8 && Tokens() == old(Tokens()) + [t] && SizesHold()
      ensures codePos <= old(codePos) + |TokenBytes(t)| + 1
    {
      ghost var before := Tokens();
      SizesSnoc(before, t);
      Regroup(closed, open, [t]);
      totalBytes := totalBytes + Size(t);
      StoreToken(t);
      if flagsLeft == 0 {
        CloseGroup();
      }
    }

    lemma SizesSnoc(ts: seq<Token>, t: Token)
      requires AllStorable(ts) && Fits(t, MAX_DIST)
      ensures AllStorable(ts + [t]) && TotalSize(ts + [t]) == TotalSize(ts) + Size(t)
      ensures |TokensBytes(ts + [t])| == |TokensBytes(ts)| + |TokenBytes(t)|
    {
      TotalSizeSnoc(ts, t);
      TokensBytesSnoc(ts, t);
    }

    /** How much of the buffer the tokens take. */
    lemma CodeSizeIs()
      requires Valid()
      ensures AllStorable(Tokens()) && codePos == CodeSize(Tokens()) && totalBytes == TotalSize(Tokens())
    {
      assert |Tokens()| == 8 * (|closed| / 8) + |open|;
    }

    lemma {:induction false} TokensTakeBytes(ts: seq<Token>)
      requires AllStorable(ts)
      ensures |TokensBytes(ts)| >= |ts|
    {
      if ts != [] {
        TokensTakeBytes(ts[1..]);
      }
    }

    method Increment(a: array<U16>, i: nat, n: nat)
      requires i < n <= a.Length && a[i] < 0xFFFF
      modifies a
      ensures a[..n] == old(a[..n])[i := old(a[..n])[i] + 1]
    {
      a[i] := a[i] + 1;
    }

    /** Counts the literal or length symbol of `t`. */
    method CountLitSym(ghost ts: seq<Token>, ghost t: Token, sym: nat)
      requires Shape() && AllStorable(ts) && Fits(t, MAX_DIST) && |ts| < 0xFFFF && sym == LitSym(t)
      requires CountsLit(litCount[..288], ts)
      modifies litCount
      ensures AllStorable(ts + [t]) && CountsLit(litCount[..288], ts + [t])
    {
      CountLit(litCount[..288], ts, t);
      assert litCount[..288][sym] == litCount[sym];
      Increment(litCount, sym, 288);
    }

    /** Counts the distance symbol of `t`. */
    method CountDistSym(ghost ts: seq<Token>, ghost t: Token, sym: nat)
      requires Shape() && AllStorable(ts) && Fits(t, MAX_DIST) && |ts| < 0xFFFF && t.Match?
          && sym == DistSym(t.dist - 1)
      requires CountsDist(distCount[..32], ts)
      modifies distCount
      ensures AllStorable(ts + [t]) && CountsDist(distCount[..32], ts + [t])
    {
      CountDist(distCount[..32], ts, t);
      assert distCount[..32][sym] == distCount[sym];
      Increment(distCount, sym, 32);
    }

    /** `tdefl_record_literal` */
    method RecordLiteral(lit: Byte)
      requires Valid() && codePos + 1 < CODE_BUF_SIZE
      modifies this, buf, litCount, distCount
      ensures Valid() && Tokens() == old(Tokens()) + [Literal(lit)] && codePos <= old(codePos) + 2
    {
      var t := Literal(lit);
      ghost var ts := Tokens();
      TokensTakeBytes(ts);
      PushToken(t);
      NoDist(distCount[..32], ts, t);
      ghost var dists := distCount[..32];
      CountLitSym(ts, t, lit);
      assert distCount[..32] == dists;
    }

    /** `tdefl_record_match` */
    method RecordMatch(len: nat, dist: nat)
      requires Valid() && codePos + 3 < CODE_BUF_SIZE
      requires MIN_MATCH <= len <= MAX_MATCH && 1 <= dist <= MAX_DIST
      modifies this, buf, litCount, distCount
      ensures Valid() && Tokens() == old(Tokens()) + [Match(len, dist)] && codePos <= old(codePos) + 4
    {
      var t := Match(len, dist);
      ghost var ts := Tokens();
      TokensTakeBytes(ts);
      PushToken(t);
      CountMatch(ts, t);
    }

    method CountMatch(ghost ts: seq<Token>, t: Token)
      requires Shape() && AllStorable(ts) && Fits(t, MAX_DIST) && |ts| < 0xFFFF && t.Match?
      requires CountsLit(litCount[..288], ts) && CountsDist(distCount[..32], ts)
      modifies litCount, distCount
      ensures AllStorable(ts + [t]) && CountsLit(litCount[..288], ts + [t]) && CountsDist(distCount[..32], ts + [t])
    {
      ghost var lits := litCount[..288];
      CountDistSym(ts, t, DistSym(t.dist - 1));
      assert litCount[..288] == lits;
      ghost var dists := distCount[..32];
      CountLitSym(ts, t, LenSym(t.len - MIN_MATCH));
      assert distCount[..32] == dists;
    }

    /** Completes the last flag byte before the block is written. */
    method Finish() returns (ghost left: seq<bool>)
      requires Valid()
      modifies this`codePos, buf
      ensures codePos <= CODE_BUF_SIZE && Segment(buf[..codePos], [], Tokens(), left)
    {
      ghost var flag := High(buf[flagPos], flagsLeft);
      FinalFlagBits(buf[flagPos], flagsLeft);
      SetByte(flagPos, codePos, High(buf[flagPos], flagsLeft));
      left := FinalSegment(flag);
      if flagsLeft == 8 {
        codePos := codePos - 1;
      }
    }

    lemma JoinBytes(i: nat, j: nat)
      requires i < j <= buf.Length
      ensures buf[..i] + ([buf[i]] + buf[i + 1..j]) == buf[..j]
    {
    }

    lemma FinalSegment(flag: Byte) returns (left: seq<bool>)
      requires Shape() && flagPos < codePos <= CODE_BUF_SIZE && buf[flagPos] == flag
      requires AllStorable(open) && |open| < 8 && flagsLeft == 8 - |open|
      requires Segment(buf[..flagPos], [], closed, [])
      requires buf[flagPos + 1..codePos] == TokensBytes(open) && ToBits(flag, 8)[..|open|] == Flags(open)
      ensures Segment(buf[..if flagsLeft == 8 then codePos - 1 else codePos], [], Tokens(), left)
    {
      if flagsLeft == 8 {
        assert buf[flagPos + 1..codePos] == [];
        assert Tokens() == closed;
        left := [];
      } else {
        LastGroup(buf[..flagPos], flag, closed, open);
        JoinBytes(flagPos, codePos);
        left := ToBits(flag, 8)[|open|..];
      }
    }

    /** Starts over with no tokens. */
    method Clear()
      requires Shape()
      modifies this, litCount, distCount
      ensures Empty()
    {
      for i := 0 to 288
        invariant Shape() && forall k :: 0 <= k < i ==> litCount[k] == 0
      {
        litCount[i] := 0;
      }
      for i := 0 to 32
        invariant Shape() && (forall k :: 0 <= k < i ==> distCount[k] == 0)
            && forall k :: 0 <= k < 288 ==> litCount[k] == 0
      {
        distCount[i] := 0;
      }
      codePos, flagPos, flagsLeft, totalBytes := 1, 0, 8, 0;
      closed, open := [], [];
      NothingCounted();
      NoBytes();
    }
  }
}
