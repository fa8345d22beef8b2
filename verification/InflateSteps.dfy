/**
 The places where decompression can stop and go on later, what remains to be done
 at each of them, and how one step leads to the next.
 */
module InflateSteps {
  import opened Bits
  import opened Canonical
  import opened DecodeTable
  import opened Tokens
  import opened InflateSpec

  /** A reading position. */
  datatype State =
    | AtHead
    | AtRawHead(final: bool, head: seq<nat>)
    | AtStored(final: bool, n: nat)
    | AtStoredByte(final: bool, n: nat, b: Byte)
    | AtTableSizes(final: bool, sizes: seq<nat>)
    | AtClSizes(final: bool, sizes: seq<nat>, i: nat, lens: seq<nat>)
    | AtSizes(final: bool, sizes: seq<nat>, cl: seq<nat>, lens: seq<nat>)
    | AtRepeat(final: bool, sizes: seq<nat>, cl: seq<nat>, lens: seq<nat>, sym: nat)
    | AtSymbols(c: Codes)
    | AtLiteral(c: Codes, b: Byte)
    | AtLenBits(c: Codes, base: nat, extra: nat)
    | AtDist(c: Codes, len: nat)
    | AtDistBits(c: Codes, len: nat, base: nat, extra: nat)
    | AtCopy(c: Codes, len: nat, dist: nat)
    | AtEnd

  /** What the rest of the stream comes to. */
  ghost function Meaning(s: State, bits: seq<bool>, out: seq<Byte>): Outcome {
    match s
    case AtHead => Block(bits, out)
    case AtRawHead(final, head) => StoredHead(final, head, bits, out)
    case AtStored(final, n) => StoredBytes(final, n, bits, out)
    case AtStoredByte(final, n, b) => StoredBytes(final, n, bits, out + [b])
    case AtTableSizes(final, sizes) => DynamicHead(final, sizes, bits, out)
    case AtClSizes(final, sizes, i, lens) => if |sizes| < 3 then Failed
        else CodeLengthSizes(final, sizes, i, lens, bits, out)
    case AtSizes(final, sizes, cl, lens) => if |sizes| < 3 then Failed else Sizes(final, sizes, cl, lens, bits, out)
    case AtRepeat(final, sizes, cl, lens, sym) =>
      if |sizes| < 3 || (sym == 16 && lens == []) then Failed else RepeatBits(final, sizes, cl, lens, sym, bits, out)
    case AtSymbols(c) => Symbols(c, bits, out)
    case AtLiteral(c, b) => Symbols(c, bits, out + [b])
    case AtLenBits(c, base, extra) => LengthBits(c, base, extra, bits, out)
    case AtDist(c, len) => Distance(c, len, bits, out)
    case AtDistBits(c, len, base, extra) => DistanceBits(c, len, base, extra, bits, out)
    case AtCopy(c, len, dist) => Copying(c, len, dist, bits, out)
    case AtEnd => Done(out, bits)
  }

  /** Decoding will succeed with this result; kept closed. */
  ghost predicate LeadsTo(s: State, bits: seq<bool>, out: seq<Byte>, goal: Outcome) {
    (forall k {:trigger Shown(s, k)} :: Shown(s, k) ==> goal.Done? && Meaning(s, bits, out) == goal) == true
  }

  /** What comes next at this position takes more than the first `have` of the bits. */
  ghost predicate Waits(s: State, bits: seq<bool>, have: nat) {
    (match s
     case AtHead => have < 3
     case AtRawHead(_, _) => have < 8
     case AtStored(_, _) => have < 8
     case AtTableSizes(_, sizes) => |sizes| < 3 && have < HEAD_WIDTHS[|sizes|]
     case AtClSizes(_, _, _, _) => have < 3
     case AtSizes(_, _, cl, _) => Incomplete(cl, bits, have)
     case AtRepeat(_, _, _, _, sym) => have < RepeatWidth(sym)
     case AtSymbols(c) => Incomplete(c.lit, bits, have)
     case AtLenBits(_, _, extra) => have < extra
     case AtDist(c, _) => Incomplete(c.dist, bits, have)
     case AtDistBits(_, _, _, extra) => have < extra
     case _ => false) == true
  }

  /** The next symbol is longer. */
  ghost predicate Incomplete(lens: seq<nat>, bits: seq<bool>, have: nat) {
    (exists sym: nat :: Next(lens, bits, sym) && have < lens[sym]) == true
  }

  lemma HeadStep(bits: seq<bool>, out: seq<Byte>, goal: Outcome)
    requires LeadsTo(AtHead, bits, out, goal)
    ensures |bits| >= 3
    ensures var final, ty, rest := bits[0], Val(bits[1..], 2), bits[3..];
            && ty < 3
            && (ty == 0 ==> LeadsTo(AtRawHead(final, []), rest[|rest| % 8..], out, goal))
            && (ty == 1 ==> LeadsTo(AtSymbols(FixedCodes(final)), rest, out, goal))
            && (ty == 2 ==> LeadsTo(AtTableSizes(final, []), rest, out, goal))
  {
    assert Shown(AtHead, 0);
    assert Pow2(2) == 4;
  }

  lemma EndStep(final: bool, bits: seq<bool>, out: seq<Byte>)
    ensures EndBlock(final, bits, out) == Meaning(if final then AtEnd else AtHead, bits, out)
  {
  }

  lemma RawHeadStep(final: bool, head: seq<nat>, bits: seq<bool>, out: seq<Byte>, goal: Outcome)
    requires LeadsTo(AtRawHead(final, head), bits, out, goal) && |head| < 4
    ensures |bits| >= 8 && LeadsTo(AtRawHead(final, head + [Val(bits, 8)]), bits[8..], out, goal)
  {
    assert Shown(AtRawHead(final, head), 0);
  }

  lemma RawHeadDone(final: bool, head: seq<nat>, bits: seq<bool>, out: seq<Byte>, goal: Outcome)
    requires LeadsTo(AtRawHead(final, head), bits, out, goal) && |head| == 4
    ensures head[0] + 256 * head[1] + head[2] + 256 * head[3] == 0xFFFF
    ensures LeadsTo(AtStored(final, head[0] + 256 * head[1]), bits, out, goal)
  {
    assert Shown(AtRawHead(final, head), 0);
  }

  lemma StoredStep(final: bool, n: nat, bits: seq<bool>, out: seq<Byte>, goal: Outcome)
    requires LeadsTo(AtStored(final, n), bits, out, goal)
    ensures n == 0 ==> LeadsTo(if final then AtEnd else AtHead, bits, out, goal)
    ensures n > 0 ==> |bits| >= 8 && Val(bits, 8) < 256
                      && LeadsTo(AtStoredByte(final, n - 1, Val(bits, 8)), bits[8..], out, goal)
  {
    assert Shown(AtStored(final, n), 0);
    Pow2Values();
    EndStep(final, bits, out);
  }

  lemma StoredByteStep(final: bool, n: nat, b: Byte, bits: seq<bool>, out: seq<Byte>, goal: Outcome)
    requires LeadsTo(AtStoredByte(final, n, b), bits, out, goal)
    ensures LeadsTo(AtStored(final, n), bits, out + [b], goal)
  {
    assert Shown(AtStoredByte(final, n, b), 0);
  }

  lemma TableSizesStep(final: bool, sizes: seq<nat>, bits: seq<bool>, out: seq<Byte>, goal: Outcome)
    requires LeadsTo(AtTableSizes(final, sizes), bits, out, goal) && |sizes| < 3
    ensures |bits| >= HEAD_WIDTHS[|sizes|]
    ensures var n := HEAD_WIDTHS[|sizes|];
            LeadsTo(AtTableSizes(final, sizes + [Val(bits, n) + MIN_SIZES[|sizes|]]), bits[n..], out, goal)
  {
    assert Shown(AtTableSizes(final, sizes), 0);
  }

  lemma TableSizesDone(final: bool, sizes: seq<nat>, bits: seq<bool>, out: seq<Byte>, goal: Outcome)
    requires LeadsTo(AtTableSizes(final, sizes), bits, out, goal) && |sizes| >= 3
    ensures LeadsTo(AtClSizes(final, sizes, 0, seq(MAX_CODE_LENGTHS, _ => 0)), bits, out, goal)
  {
    assert Shown(AtTableSizes(final, sizes), 0);
  }

  lemma ClSizesStep(final: bool, sizes: seq<nat>, i: nat, lens: seq<nat>, bits: seq<bool>, out: seq<Byte>,
                    goal: Outcome)
    requires LeadsTo(AtClSizes(final, sizes, i, lens), bits, out, goal) && |sizes| >= 3 && i < sizes[2]
    ensures |lens| == MAX_CODE_LENGTHS && i < MAX_CODE_LENGTHS
    ensures |bits| >= 3 && LeadsTo(AtClSizes(final, sizes, i + 1, lens[Swizzle(i) := Val(bits, 3)]), bits[3..], out,
        goal)
  {
    assert Shown(AtClSizes(final, sizes, i, lens), 0);
    assert Meaning(AtClSizes(final, sizes, i, lens), bits, out) == CodeLengthSizes(final, sizes, i, lens, bits, out);
  }

  lemma ClSizesDone(final: bool, sizes: seq<nat>, i: nat, lens: seq<nat>, bits: seq<bool>, out: seq<Byte>,
                    goal: Outcome)
    requires LeadsTo(AtClSizes(final, sizes, i, lens), bits, out, goal) && |sizes| >= 3 && i >= sizes[2]
    ensures |lens| == MAX_CODE_LENGTHS && Decodable(lens) && LeadsTo(AtSizes(final, sizes, lens, []), bits, out, goal)
  {
    assert Shown(AtClSizes(final, sizes, i, lens), 0);
  }

  lemma SizesStep(final: bool, sizes: seq<nat>, cl: seq<nat>, lens: seq<nat>, bits: seq<bool>, out: seq<Byte>,
                  goal: Outcome) returns (sym: nat)
    requires LeadsTo(AtSizes(final, sizes, cl, lens), bits, out, goal) && |sizes| >= 3 && |lens| < sizes[0] + sizes[1]
    ensures Next(cl, bits, sym) && sym <= 18 && (sym == 16 ==> lens != [])
    ensures sym < 16 ==> LeadsTo(AtSizes(final, sizes, cl, lens + [sym]), bits[cl[sym]..], out, goal)
    ensures sym >= 16 ==> LeadsTo(AtRepeat(final, sizes, cl, lens, sym), bits[cl[sym]..], out, goal)
  {
    assert Shown(AtSizes(final, sizes, cl, lens), 0);
    sym := DecodeSym(cl, bits);
  }

  lemma RepeatStep(final: bool, sizes: seq<nat>, cl: seq<nat>, lens: seq<nat>, sym: nat, bits: seq<bool>,
                   out: seq<Byte>, goal: Outcome)
    requires LeadsTo(AtRepeat(final, sizes, cl, lens, sym), bits, out, goal) && |sizes| >= 3
        && (sym == 16 ==> lens != [])
    ensures |bits| >= RepeatWidth(sym)
    ensures var n := RepeatBase(sym) + Val(bits, RepeatWidth(sym));
            LeadsTo(AtSizes(final, sizes, cl, lens + Run(n, if sym == 16 then lens[|lens| - 1] else 0)),
                bits[RepeatWidth(sym)..], out, goal)
  {
    assert Shown(AtRepeat(final, sizes, cl, lens, sym), 0);
  }

  lemma SizesDone(final: bool, sizes: seq<nat>, cl: seq<nat>, lens: seq<nat>, bits: seq<bool>, out: seq<Byte>,
                  goal: Outcome)
    requires LeadsTo(AtSizes(final, sizes, cl, lens), bits, out, goal) && |sizes| >= 3 && |lens| >= sizes[0] + sizes[1]
    ensures |lens| == sizes[0] + sizes[1] && Decodable(lens[..sizes[0]]) && Decodable(lens[sizes[0]..])
    ensures LeadsTo(AtSymbols(Codes(final, lens[..sizes[0]], lens[sizes[0]..])), bits, out, goal)
  {
    assert Shown(AtSizes(final, sizes, cl, lens), 0);
  }

  /** What follows a literal/length symbol. */
  ghost predicate SymbolLeads(sym: nat, c: Codes, bits: seq<bool>, out: seq<Byte>, goal: Outcome) {
    (&& sym < 286
     && (sym < 256 ==> LeadsTo(AtLiteral(c, sym), bits, out, goal))
     && (sym == 256 ==> LeadsTo(if c.final then AtEnd else AtHead, bits, out, goal))
     && (sym > 256 ==> LeadsTo(AtLenBits(c, LENGTH_BASE[sym - 257], LENGTH_EXTRA[sym - 257]), bits, out, goal))) == true
  }

  lemma SymbolStep(c: Codes, bits: seq<bool>, out: seq<Byte>, goal: Outcome) returns (sym: nat)
    requires LeadsTo(AtSymbols(c), bits, out, goal)
    ensures Next(c.lit, bits, sym) && SymbolLeads(sym, c, bits[c.lit[sym]..], out, goal)
  {
    assert Shown(AtSymbols(c), 0);
    sym := DecodeSym(c.lit, bits);
    EndStep(c.final, bits[c.lit[sym]..], out);
  }

  lemma LiteralStep(c: Codes, b: Byte, bits: seq<bool>, out: seq<Byte>, goal: Outcome)
    requires LeadsTo(AtLiteral(c, b), bits, out, goal)
    ensures LeadsTo(AtSymbols(c), bits, out + [b], goal)
  {
    assert Shown(AtLiteral(c, b), 0);
  }

  lemma LenBitsStep(c: Codes, base: nat, extra: nat, bits: seq<bool>, out: seq<Byte>, goal: Outcome)
    requires LeadsTo(AtLenBits(c, base, extra), bits, out, goal)
    ensures |bits| >= extra && LeadsTo(AtDist(c, base + Val(bits, extra)), bits[extra..], out, goal)
  {
    assert Shown(AtLenBits(c, base, extra), 0);
  }

  lemma LengthRange(sym: nat)
    requires 257 <= sym < 286
    ensures LENGTH_BASE[sym - 257] >= MIN_MATCH && LENGTH_EXTRA[sym - 257] <= 5
  {
  }

  lemma DistanceRange(sym: nat)
    requires sym < 30
    ensures DIST_BASE[sym] + Pow2(DIST_EXTRA[sym]) <= MAX_DIST + 1 && DIST_EXTRA[sym] <= 13
  {
    PowersTo13();
  }

  lemma DistStep(c: Codes, len: nat, bits: seq<bool>, out: seq<Byte>, goal: Outcome) returns (sym: nat)
    requires LeadsTo(AtDist(c, len), bits, out, goal)
    ensures Next(c.dist, bits, sym) && sym < 30
    ensures LeadsTo(AtDistBits(c, len, DIST_BASE[sym], DIST_EXTRA[sym]), bits[c.dist[sym]..], out, goal)
  {
    assert Shown(AtDist(c, len), 0);
    sym := DecodeSym(c.dist, bits);
  }

  lemma DistBitsStep(c: Codes, len: nat, base: nat, extra: nat, bits: seq<bool>, out: seq<Byte>, goal: Outcome)
    requires LeadsTo(AtDistBits(c, len, base, extra), bits, out, goal)
    ensures |bits| >= extra && LeadsTo(AtCopy(c, len, base + Val(bits, extra)), bits[extra..], out, goal)
    ensures 1 <= base + Val(bits, extra) <= |out|
  {
    assert Shown(AtDistBits(c, len, base, extra), 0);
    assert Meaning(AtDistBits(c, len, base, extra), bits, out) == DistanceBits(c, len, base, extra, bits, out);
    assert DistanceBits(c, len, base, extra, bits, out)
        == (if |bits| < extra then Failed else Copying(c, len, base + Val(bits, extra), bits[extra..], out));
  }

  lemma CopyStep(c: Codes, len: nat, dist: nat, bits: seq<bool>, out: seq<Byte>, goal: Outcome)
    requires LeadsTo(AtCopy(c, len, dist), bits, out, goal)
    ensures 1 <= dist <= |out|
    ensures len == 0 ==> LeadsTo(AtSymbols(c), bits, out, goal)
    ensures len > 0 ==> LeadsTo(AtCopy(c, len - 1, dist), bits, out + [out[|out| - dist]], goal)
    ensures LeadsTo(AtSymbols(c), bits, Copy(out, len, dist), goal)
  {
    assert Shown(AtCopy(c, len, dist), 0);
    if len > 0 {
      assert Copy(out, len, dist) == Copy(out + [out[|out| - dist]], len - 1, dist);
    }
  }

  /** The start of a whole stream. */
  lemma StreamStart(bytes: seq<Byte>, goal: Outcome)
    requires goal.Done? && Inflate(bytes) == goal
    ensures LeadsTo(AtHead, BytesToBits(bytes), [], goal)
  {
    assert Shown(AtHead, 0);
  }

  // ---- Output only grows

  function Depth(s: State): nat {
    match s
    case AtTableSizes(_, _) => 9 case AtClSizes(_, _, _, _) => 8 case AtSizes(_, _, _, _) => 7
    case AtStored(_, _) => 7
    case AtRawHead(_, _) => 8
    case AtLenBits(_, _, _) => 6 case AtDist(_, _) => 5
    case AtDistBits(_, _, _, _) => 6 case AtCopy(_, _, _) => 5
    case AtSymbols(_) => 3 case AtLiteral(_, _) => 4
    case AtStoredByte(_, _, _) => 8 case AtRepeat(_, _, _, _, _) => 10
    case AtHead => 1
    case AtEnd => 0
  }

  /** What has been produced is never taken back. */
  lemma {:induction false} Grows(s: State, bits: seq<bool>, out: seq<Byte>, goal: Outcome)
    requires LeadsTo(s, bits, out, goal)
    ensures goal.Done? && out <= goal.out
    decreases |bits|, Depth(s), 1
  {
    assert Shown(s, 0);
    match s
    case AtHead =>
      HeadStep(bits, out, goal);
      var final, rest := bits[0], bits[3..];
      if Val(bits[1..], 2) == 0 {
        Grows(AtRawHead(final, []), rest[|rest| % 8..], out, goal);
      } else if Val(bits[1..], 2) == 1 {
        Grows(AtSymbols(FixedCodes(final)), rest, out, goal);
      } else {
        Grows(AtTableSizes(final, []), rest, out, goal);
      }
    case AtRawHead(_, _) => GrowsStored(s, bits, out, goal);
    case AtStored(_, _) => GrowsStored(s, bits, out, goal);
    case AtStoredByte(_, _, _) => GrowsStored(s, bits, out, goal);
    case AtTableSizes(_, _) => GrowsSizes(s, bits, out, goal);
    case AtClSizes(_, _, _, _) => GrowsSizes(s, bits, out, goal);
    case AtSizes(_, _, _, _) => GrowsRuns(s, bits, out, goal);
    case AtRepeat(_, _, _, _, _) => GrowsRuns(s, bits, out, goal);
    case AtEnd =>
    case _ => GrowsSymbols(s, bits, out, goal);
  }

  lemma {:induction false} GrowsStored(s: State, bits: seq<bool>, out: seq<Byte>, goal: Outcome)
    requires LeadsTo(s, bits, out, goal) && (s.AtRawHead? || s.AtStored? || s.AtStoredByte?)
    ensures goal.Done? && out <= goal.out
    decreases |bits|, Depth(s), 0
  {
    match s
    case AtRawHead(final, head) =>
      if |head| < 4 {
        RawHeadStep(final, head, bits, out, goal);
        Grows(AtRawHead(final, head + [Val(bits, 8)]), bits[8..], out, goal);
      } else {
        RawHeadPast(final, head, bits, out, goal);
        Grows(AtStored(final, head[0] + 256 * head[1]), bits, out, goal);
      }
    case AtStored(final, n) =>
      StoredStep(final, n, bits, out, goal);
      if n == 0 {
        Grows(if final then AtEnd else AtHead, bits, out, goal);
      } else {
        Grows(AtStoredByte(final, n - 1, Val(bits, 8)), bits[8..], out, goal);
      }
    case AtStoredByte(final, n, b) =>
      StoredByteStep(final, n, b, bits, out, goal);
      Grows(AtStored(final, n), bits, out + [b], goal);
  }

  lemma RawHeadPast(final: bool, head: seq<nat>, bits: seq<bool>, out: seq<Byte>, goal: Outcome)
    requires LeadsTo(AtRawHead(final, head), bits, out, goal) && |head| >= 4
    ensures LeadsTo(AtStored(final, head[0] + 256 * head[1]), bits, out, goal)
  {
    assert Shown(AtRawHead(final, head), 0);
  }

  lemma ThreeSizes(s: State, bits: seq<bool>, out: seq<Byte>, goal: Outcome)
    requires LeadsTo(s, bits, out, goal)
    ensures s.AtClSizes? || s.AtSizes? || s.AtRepeat? ==> |s.sizes| >= 3
    ensures s.AtRepeat? && s.sym == 16 ==> s.lens != []
  {
    assert Shown(s, 0);
  }

  lemma {:induction false} GrowsSizes(s: State, bits: seq<bool>, out: seq<Byte>, goal: Outcome)
    requires LeadsTo(s, bits, out, goal) && (s.AtTableSizes? || s.AtClSizes?)
    ensures goal.Done? && out <= goal.out
    decreases |bits|, Depth(s), 0
  {
    ThreeSizes(s, bits, out, goal);
    match s
    case AtTableSizes(final, sizes) =>
      if |sizes| < 3 {
        TableSizesStep(final, sizes, bits, out, goal);
        var n := HEAD_WIDTHS[|sizes|];
        Grows(AtTableSizes(final, sizes + [Val(bits, n) + MIN_SIZES[|sizes|]]), bits[n..], out, goal);
      } else {
        TableSizesDone(final, sizes, bits, out, goal);
        Grows(AtClSizes(final, sizes, 0, seq(MAX_CODE_LENGTHS, _ => 0)), bits, out, goal);
      }
    case AtClSizes(final, sizes, i, lens) =>
      if i < sizes[2] {
        ClSizesStep(final, sizes, i, lens, bits, out, goal);
        Grows(AtClSizes(final, sizes, i + 1, lens[Swizzle(i) := Val(bits, 3)]), bits[3..], out, goal);
      } else {
        ClSizesDone(final, sizes, i, lens, bits, out, goal);
        Grows(AtSizes(final, sizes, lens, []), bits, out, goal);
      }
  }

  lemma {:induction false} GrowsRuns(s: State, bits: seq<bool>, out: seq<Byte>, goal: Outcome)
    requires LeadsTo(s, bits, out, goal) && (s.AtSizes? || s.AtRepeat?)
    ensures goal.Done? && out <= goal.out
    decreases |bits|, Depth(s), 0
  {
    ThreeSizes(s, bits, out, goal);
    match s
    case AtSizes(final, sizes, cl, lens) =>
      if |lens| < sizes[0] + sizes[1] {
        var sym := SizesStep(final, sizes, cl, lens, bits, out, goal);
        if sym < 16 {
          Grows(AtSizes(final, sizes, cl, lens + [sym]), bits[cl[sym]..], out, goal);
        } else {
          Grows(AtRepeat(final, sizes, cl, lens, sym), bits[cl[sym]..], out, goal);
        }
      } else {
        SizesDone(final, sizes, cl, lens, bits, out, goal);
        Grows(AtSymbols(Codes(final, lens[..sizes[0]], lens[sizes[0]..])), bits, out, goal);
      }
    case AtRepeat(final, sizes, cl, lens, sym) =>
      RepeatStep(final, sizes, cl, lens, sym, bits, out, goal);
      var n := RepeatBase(sym) + Val(bits, RepeatWidth(sym));
      Grows(AtSizes(final, sizes, cl, lens + Run(n, if sym == 16 then lens[|lens| - 1] else 0)),
          bits[RepeatWidth(sym)..], out, goal);
  }

  lemma {:induction false} GrowsSymbols(s: State, bits: seq<bool>, out: seq<Byte>, goal: Outcome)
    requires LeadsTo(s, bits, out, goal)
    requires s.AtSymbols? || s.AtLiteral? || s.AtLenBits? || s.AtDist? || s.AtDistBits? || s.AtCopy?
    ensures goal.Done? && out <= goal.out
    decreases |bits|, Depth(s), 0
  {
    match s
    case AtSymbols(c) =>
      var sym := SymbolStep(c, bits, out, goal);
      var rest := bits[c.lit[sym]..];
      Grows(if sym < 256 then AtLiteral(c, sym)
          else if sym > 256 then AtLenBits(c, LENGTH_BASE[sym - 257], LENGTH_EXTRA[sym - 257])
            else if c.final then AtEnd else AtHead, rest, out, goal);
    case AtLiteral(c, b) =>
      LiteralStep(c, b, bits, out, goal);
      Grows(AtSymbols(c), bits, out + [b], goal);
    case AtLenBits(c, base, extra) =>
      LenBitsStep(c, base, extra, bits, out, goal);
      Grows(AtDist(c, base + Val(bits, extra)), bits[extra..], out, goal);
    case AtDist(c, len) =>
      var sym := DistStep(c, len, bits, out, goal);
      Grows(AtDistBits(c, len, DIST_BASE[sym], DIST_EXTRA[sym]), bits[c.dist[sym]..], out, goal);
    case AtDistBits(c, len, base, extra) =>
      DistBitsStep(c, len, base, extra, bits, out, goal);
      Grows(AtCopy(c, len, base + Val(bits, extra)), bits[extra..], out, goal);
    case AtCopy(c, len, dist) =>
      CopyStep(c, len, dist, bits, out, goal);
      Grows(AtSymbols(c), bits, Copy(out, len, dist), goal);
  }
}
