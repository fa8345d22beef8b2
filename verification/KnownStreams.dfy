/**
 Streams written down byte by byte, and what they decode to: they tie the meaning of
 a bit string to the format itself, independently of the compressor.
 */
module KnownStreams {
  import opened Bits
  import opened Canonical
  import opened DecodeTable
  import opened Tokens
  import opened InflateSpec
  import opened BlockBits

  // ---- Stored blocks

  /** A byte with the block header, the length and its complement, lower bytes first, and the bytes themselves. */
  lemma StoredStream(bs: seq<Byte>, more: seq<Byte>)
    requires |bs| < 0x1_0000
    ensures var n := |bs|;
            Inflate([1, n % 256, n / 256, 255 - n % 256, 255 - n / 256] + bs + more) == Done(bs, BytesToBits(more))
  {
    var n := |bs|;
    var head := [n % 256, n / 256, 255 - n % 256, 255 - n / 256];
    HeadFirst(head[0], head[1], head[2], head[3], bs, more);
    StoredStreamBits(bs, head);
    OnlyBlock(true, 0, bs, [1] + (head + bs), more);
  }

  lemma HeadFirst(a: Byte, b: Byte, c: Byte, d: Byte, bs: seq<Byte>, more: seq<Byte>)
    ensures [1, a, b, c, d] + bs + more == [1] + ([a, b, c, d] + bs) + more
  {
    assert [1, a, b, c, d] == [1] + [a, b, c, d];
  }

  lemma OnlyBlock(final: bool, at: nat, bs: seq<Byte>, stream: seq<Byte>, more: seq<Byte>)
    requires |bs| < 0x1_0000 && BytesToBits(stream) == StoredBits(final, at, bs) && final
    ensures Inflate(stream + more) == Done(bs, BytesToBits(more))
  {
    var rest := BytesToBits(more);
    DivModUnique(|rest|, 8, |more|, 0);
    BytesToBitsConcat(stream, more);
    StoredBlockDecodes(final, at, bs, rest, []);
    assert [] + bs == bs;
    LastOne(stream + more, final, rest, bs);
  }

  lemma LastOne(bytes: seq<Byte>, final: bool, rest: seq<bool>, out: seq<Byte>)
    requires Block(BytesToBits(bytes), []) == EndBlock(final, rest, out) && final
    ensures Inflate(bytes) == Done(out, rest)
  {
  }

  lemma StoredStreamBits(bs: seq<Byte>, head: seq<Byte>)
    requires var n := |bs|; n < 0x1_0000 && head == [n % 256, n / 256, 255 - n % 256, 255 - n / 256]
    ensures BytesToBits([1] + (head + bs)) == StoredBits(true, 0, bs)
  {
    BytesToBitsConcat([1], head + bs);
    BytesToBitsConcat(head, bs);
    OneByte();
    HeadBits(|bs|, head);
    Regroup(BlockStart(true, 0) + Padding(3), LengthHead(|bs|), BytesToBits(bs));
  }

  lemma OneByte()
    ensures BytesToBits([1]) == BlockStart(true, 0) + Padding(3)
  {
    BytesToBitsSnoc([], 1);
    assert [] + [1] == [1];
  }

  lemma HeadBits(n: nat, head: seq<Byte>)
    requires n < 0x1_0000 && head == [n % 256, n / 256, 255 - n % 256, 255 - n / 256]
    ensures BytesToBits(head) == LengthHead(n)
  {
    LengthHeadBytes(n);
    Complement(n);
    FourBytes(head[0], head[1], head[2], head[3], 8);
  }

  lemma FourBytes(a: Byte, b: Byte, c: Byte, d: Byte, w: nat)
    requires w == 8
    ensures BytesToBits([a, b, c, d]) == ToBits(a, w) + ToBits(b, w) + ToBits(c, w) + ToBits(d, w)
  {
    TwoBytesBits(a, b, w);
    TwoBytesBits(c, d, w);
    BytesToBitsConcat([a, b], [c, d]);
    assert [a, b] + [c, d] == [a, b, c, d];
    Regroup(ToBits(a, w) + ToBits(b, w), ToBits(c, w), ToBits(d, w));
  }

  lemma TwoBytesBits(a: Byte, b: Byte, w: nat)
    requires w == 8
    ensures BytesToBits([a, b]) == ToBits(a, w) + ToBits(b, w)
  {
    BytesToBitsSnoc([a], b);
    BytesToBitsSnoc([], a);
    assert [a] + [b] == [a, b] && [] + [a] == [a];
  }

  lemma Complement(n: nat)
    requires n < 0x1_0000
    ensures (0xFFFF - n) % 256 == 255 - n % 256 && (0xFFFF - n) / 256 == 255 - n / 256
  {
    DivModUnique(0xFFFF - n, 256, 255 - n / 256, 255 - n % 256);
  }

  // ---- A block with codes of its own

  /** The code length code: one bit for a long run of zeros, two bits each for 0 and 1. */
  ghost function SampleCl(): seq<nat> {
    [2, 2, 0, 0, 0, 0, 0, 0, 0, 0, 0, 0, 0, 0, 0, 0, 0, 0, 1]
  }

  ghost function SampleOps(): seq<Op> {
    [Repeat(18, 86), Plain(1), Repeat(18, 127), Repeat(18, 9), Plain(1), Plain(0)]
  }

  /** `a` and the end of the block have code words of one bit. */
  ghost function SampleLengths(): seq<nat> {
    Run(97, 0) + [1] + Run(138, 0) + Run(20, 0) + [1] + [0]
  }

  lemma SampleUnpacks()
    ensures OpsOk(SampleOps(), []) && Unpack([], SampleOps()) == SampleLengths()
  {
    Pow2Values();
    assert Pow2(7) == 128;
    var ops := SampleOps();
    assert ops[1..] == [Plain(1), Repeat(18, 127), Repeat(18, 9), Plain(1), Plain(0)];
    assert ops[1..][1..] == [Repeat(18, 127), Repeat(18, 9), Plain(1), Plain(0)];
    assert ops[1..][1..][1..] == [Repeat(18, 9), Plain(1), Plain(0)];
    assert ops[1..][1..][1..][1..] == [Plain(1), Plain(0)];
    assert ops[1..][1..][1..][1..][1..] == [Plain(0)];
    assert [] + Run(97, 0) == Run(97, 0);
  }

  /** Short code words that leave no room. */
  lemma ShortAndFull(lens: seq<nat>)
    requires SizesFit(lens) && 2 * Count(lens, 1) + Count(lens, 2) == 4
    requires forall l :: 3 <= l ==> Count(lens, l) == 0
    ensures Full(lens)
  {
    assert First(lens, 2) == 2 * Count(lens, 1);
    assert First(lens, 3) == 8;
    FirstIs(lens, 3, MAX_CODE_SIZE);
    Pow2Values();
    Pow2Add(3, 12);
  }

  lemma SampleClFull()
    ensures Full(SampleCl())
  {
    var cl := SampleCl();
    forall l | 3 <= l ensures Count(cl, l) == 0 {
      CountRange(cl, 19, l, 0, 0);
    }
    CountRange(cl, 2, 2, 0, 2);
    CountRange(cl, 19, 2, 2, 2);
    CountRange(cl, 18, 1, 0, 0);
    ShortAndFull(cl);
  }

  lemma SampleClCodes()
    ensures CodeBits(SampleCl(), 18) == [false]
    ensures CodeBits(SampleCl(), 0) == [true, false]
    ensures CodeBits(SampleCl(), 1) == [true, true]
  {
    var cl := SampleCl();
    CountRange(cl, 18, 1, 0, 0);
    CountRange(cl, 19, 1, 18, 19);
    assert First(cl, 2) == 2;
    assert Code(cl, 18) == 0 && Code(cl, 0) == 2 && Code(cl, 1) == 3;
  }

  /** Where the lengths are not zero. */
  lemma SampleLengthsAt(i: nat)
    requires i < 258
    ensures |SampleLengths()| == 258 && SampleLengths()[i] == if i == 97 || i == 256 then 1 else 0
  {
  }

  lemma SampleLitFull(lit: seq<nat>)
    requires |lit| == 257 && forall i :: 0 <= i < 257 ==> lit[i] == if i == 97 || i == 256 then 1 else 0
    ensures Full(lit) && CodeBits(lit, 97) == [false] && CodeBits(lit, 256) == [true]
  {
    forall l | 1 <= l ensures Count(lit, l) == if l == 1 then 2 else 0 {
      CountRange(lit, 97, l, 0, 0);
      CountRange(lit, 98, l, 97, if l == 1 then 98 else 97);
      CountRange(lit, 256, l, 98, 98);
    }
    ShortAndFull(lit);
    CountRange(lit, 97, 1, 0, 0);
    CountRange(lit, 98, 1, 97, 98);
    CountRange(lit, 256, 1, 98, 98);
  }

  ghost function SampleHeader(): Header {
    Header(SampleCl(), 18, 257, 1, SampleOps())
  }

  lemma SampleGood()
    ensures GoodHeader(SampleHeader(), SampleLengths())
  {
    SampleClFull();
    SampleUnpacks();
    SampleCoded();
    SampleClEnds();
    SampleLengthsAt(0);
    HeaderIsGood(SampleCl(), SampleOps(), SampleLengths());
  }

  lemma HeaderIsGood(cl: seq<nat>, ops: seq<Op>, lens: seq<nat>)
    requires |cl| == MAX_CODE_LENGTHS && Full(cl) && |lens| == 258 && forall k :: 0 <= k < 19 ==> cl[k] < 8
    requires forall k :: 18 <= k < MAX_CODE_LENGTHS ==> cl[Swizzle(k)] == 0
    requires OpsCoded(cl, ops) && OpsOk(ops, []) && Unpack([], ops) == lens
    ensures GoodHeader(Header(cl, 18, 257, 1, ops), lens)
  {
  }

  lemma SampleClEnds()
    ensures |SampleCl()| == MAX_CODE_LENGTHS && forall k :: 0 <= k < 19 ==> SampleCl()[k] < 8
    ensures forall k :: 18 <= k < MAX_CODE_LENGTHS ==> SampleCl()[Swizzle(k)] == 0
  {
  }

  lemma SampleCoded()
    ensures OpsCoded(SampleCl(), SampleOps())
  {
  }

  // ---- Fields of bits

  /** Numbers and the bits they take, one behind the other. */
  datatype Fields = End | Field(v: nat, n: nat, rest: Fields)

  function Spread(f: Fields): seq<bool> {
    match f
    case End => []
    case Field(v, n, rest) => ToBits(v, n) + Spread(rest)
  }

  function Width(f: Fields): nat {
    match f
    case End => 0
    case Field(v, n, rest) => n + Width(rest)
  }

  /** All fields as one number. */
  function Value(f: Fields): nat {
    match f
    case End => 0
    case Field(v, n, rest) => v + Pow2(n) * Value(rest)
  }

  predicate Fitting(f: Fields) {
    match f
    case End => true
    case Field(v, n, rest) => v < Pow2(n) && Fitting(rest)
  }

  lemma {:induction false} SpreadIsValue(f: Fields)
    requires Fitting(f)
    ensures Spread(f) == ToBits(Value(f), Width(f))
  {
    if f.Field? {
      SpreadIsValue(f.rest);
      ToBitsConcat(f.v, f.n, Value(f.rest), Width(f.rest));
    }
  }

  function Join(f: Fields, g: Fields): Fields {
    match f
    case End => g
    case Field(v, n, rest) => Field(v, n, Join(rest, g))
  }

  lemma {:induction false} SpreadJoin(f: Fields, g: Fields)
    ensures Spread(Join(f, g)) == Spread(f) + Spread(g)
  {
    if f.Field? {
      SpreadJoin(f.rest, g);
      Regroup(ToBits(f.v, f.n), Spread(f.rest), Spread(g));
    } else {
      assert [] + Spread(g) == Spread(g);
    }
  }

  function OfBytes(bs: seq<Byte>): Fields {
    if bs == [] then End else Field(bs[0], 8, OfBytes(bs[1..]))
  }

  lemma {:induction false} BytesAreFields(bs: seq<Byte>)
    ensures BytesToBits(bs) == Spread(OfBytes(bs))
  {
    if bs != [] {
      BytesAreFields(bs[1..]);
    }
  }

  // ---- The same block as bytes

  /** The code words of the code length code, as fields. */
  ghost predicate SampleWords(cl: seq<nat>) {
    && |cl| == MAX_CODE_LENGTHS
    && CodeBits(cl, 18) == ToBits(0, 1) && CodeBits(cl, 0) == ToBits(1, 2) && CodeBits(cl, 1) == ToBits(3, 2)
  }

  lemma SampleHasWords()
    ensures SampleWords(SampleCl())
  {
    SampleClCodes();
  }

  /** Only the operations that occur here. */
  ghost predicate Simple(op: Op) {
    match op
    case Repeat(sym, _) => sym == 18
    case Plain(len) => len <= 1
  }

  /** An operation as fields: a code word, and the length of a run. */
  ghost function OpFields(op: Op, rest: Fields): Fields {
    if op.Repeat? then Field(0, 1, Field(op.extra, 7, rest)) else Field(if op.len == 0 then 1 else 3, 2, rest)
  }

  lemma OneOp(cl: seq<nat>, op: Op, rest: Fields)
    requires SampleWords(cl) && Simple(op)
    ensures OpBits(cl, op) + Spread(rest) == Spread(OpFields(op, rest))
  {
    if op.Repeat? {
      Regroup(CodeBits(cl, 18), ToBits(op.extra, 7), Spread(rest));
    } else {
      assert OpBits(cl, op) == CodeBits(cl, op.len);
    }
  }

  ghost function OpsFields(ops: seq<Op>): Fields {
    if ops == [] then End else OpFields(ops[0], OpsFields(ops[1..]))
  }

  lemma {:induction false} OpsAreFields(cl: seq<nat>, ops: seq<Op>)
    requires SampleWords(cl) && OpsCoded(cl, ops) && forall i :: 0 <= i < |ops| ==> Simple(ops[i])
    ensures OpsBits(cl, ops) == Spread(OpsFields(ops))
  {
    if ops != [] {
      OpsAreFields(cl, ops[1..]);
      OneOp(cl, ops[0], OpsFields(ops[1..]));
    }
  }

  lemma SampleOpsFields()
    ensures OpsFields(SampleOps()) == Field(0, 1, Field(86, 7, Field(3, 2, Field(0, 1, Field(127, 7,
              Field(0, 1, Field(9, 7, Field(3, 2, Field(1, 2, End)))))))))
  {
    var ops := SampleOps();
    assert ops[1..] == [Plain(1), Repeat(18, 127), Repeat(18, 9), Plain(1), Plain(0)];
    assert ops[1..][1..] == [Repeat(18, 127), Repeat(18, 9), Plain(1), Plain(0)];
    assert ops[1..][1..][1..] == [Repeat(18, 9), Plain(1), Plain(0)];
    assert ops[1..][1..][1..][1..] == [Plain(1), Plain(0)];
    assert ops[1..][1..][1..][1..][1..] == [Plain(0)];
  }

  /** The code length code in the order of the header. */
  ghost function SwizzledFields(cl: seq<nat>, i: nat, n: nat): Fields
    requires i <= n <= MAX_CODE_LENGTHS == |cl|
    decreases n - i
  {
    if i == n then End else Field(cl[Swizzle(i)], 3, SwizzledFields(cl, i + 1, n))
  }

  lemma {:induction false} SwizzledAreFields(cl: seq<nat>, i: nat, n: nat)
    requires i <= n <= MAX_CODE_LENGTHS == |cl|
    ensures SwizzledBits(cl, i, n) == Spread(SwizzledFields(cl, i, n))
    decreases n - i
  {
    if i < n {
      SwizzledAreFields(cl, i + 1, n);
    }
  }

  /** `n` fields of three zero bits. */
  function ThreeZeros(k: nat, rest: Fields): Fields {
    if k == 0 then rest else Field(0, 3, ThreeZeros(k - 1, rest))
  }

  lemma {:induction false} ZerosAhead(cl: seq<nat>, i: nat, j: nat, n: nat)
    requires i <= j <= n <= MAX_CODE_LENGTHS == |cl| && forall k :: i <= k < j ==> cl[Swizzle(k)] == 0
    ensures SwizzledFields(cl, i, n) == ThreeZeros(j - i, SwizzledFields(cl, j, n))
    decreases j - i
  {
    if i < j {
      ZerosAhead(cl, i + 1, j, n);
    }
  }

  lemma SampleSwizzled(cl: seq<nat>)
    requires |cl| == MAX_CODE_LENGTHS && cl[18] == 1 && cl[0] == cl[1] == 2 && forall k :: 2 <= k < 18 ==> cl[k] == 0
    ensures SwizzledFields(cl, 0, 18) == ThreeZeros(2, Field(1, 3, Field(2, 3, ThreeZeros(13, Field(2, 3, End)))))
  {
    forall k | 0 <= k < 18 ensures cl[Swizzle(k)] == if k == 2 then 1 else if k == 3 || k == 17 then 2 else 0 {
      SwizzleOrder(k);
    }
    ZerosAhead(cl, 0, 2, 18);
    ZerosAhead(cl, 4, 17, 18);
    assert SwizzledFields(cl, 2, 18) == Field(1, 3, SwizzledFields(cl, 3, 18));
    assert SwizzledFields(cl, 17, 18) == Field(2, 3, SwizzledFields(cl, 18, 18));
  }

  /** All of a block: its start, the counts 0, 0 and 14, the code length code, the operations, and what is behind. */
  lemma BlockAsFields(h: Header, c: Fields, o: Fields, b: Fields, body: seq<bool>)
    requires |h.cl| == MAX_CODE_LENGTHS && h.n == 18 && h.nlit == 257 && h.ndist == 1 && OpsCoded(h.cl, h.ops)
    requires SwizzledBits(h.cl, 0, h.n) == Spread(c) && OpsBits(h.cl, h.ops) == Spread(o) && body == Spread(b)
    ensures BlockStart(true, 2) + HeaderBits(h) + body ==
            Spread(Join(Field(1, 1, Field(2, 2, Field(0, 5, Field(0, 5, Field(14, 4, End))))), Join(c, Join(o, b))))
  {
    SpreadJoin(o, b);
    SpreadJoin(c, Join(o, b));
    var head := Field(1, 1, Field(2, 2, Field(0, 5, Field(0, 5, Field(14, 4, End)))));
    SpreadJoin(head, Join(c, Join(o, b)));
    StartAndCounts(h);
    FiveParts(BlockStart(true, 2), CountBits(h), Spread(c), Spread(o), body);
  }

  lemma FiveParts(a: seq<bool>, b: seq<bool>, c: seq<bool>, d: seq<bool>, e: seq<bool>)
    ensures a + (b + c + d) + e == (a + b) + (c + (d + e))
  {
  }

  lemma StartAndCounts(h: Header)
    requires h.n == 18 && h.nlit == 257 && h.ndist == 1
    ensures BlockStart(true, 2) + CountBits(h) ==
            Spread(Field(1, 1, Field(2, 2, Field(0, 5, Field(0, 5, Field(14, 4, End))))))
  {
    assert ToBits(1, 1) == [true];
    var a, b, c := ToBits(0, 5), ToBits(0, 5), ToBits(14, 4);
    assert [true] + ToBits(2, 2) + (a + b + c) == [true] + (ToBits(2, 2) + (a + (b + (c + []))));
  }

  /** The fields are the lowest `n` bits of `v`; kept closed. */
  ghost predicate Make(f: Fields, v: nat, n: nat) {
    forall k {:trigger Shown(f, k)} :: Shown(f, k) ==> Fitting(f) && Value(f) == v && Width(f) == n
  }

  lemma SameNumber(f: Fields, g: Fields, v: nat, n: nat)
    requires Make(f, v, n) && Make(g, v, n)
    ensures Spread(f) == Spread(g)
  {
    assert Shown(f, 0) && Shown(g, 0);
    SpreadIsValue(f);
    SpreadIsValue(g);
  }

  lemma {:induction false} JoinMakes(f: Fields, v: nat, n: nat, g: Fields, w: nat, m: nat)
    requires Make(f, v, n) && Make(g, w, m)
    ensures Make(Join(f, g), v + Pow2(n) * w, n + m)
  {
    assert Shown(f, 0) && Shown(g, 0);
    if f.Field? {
      var v', n' := Value(f.rest), Width(f.rest);
      JoinMakes(f.rest, v', n', g, w, m);
      assert Shown(Join(f.rest, g), 0);
      Pow2Add(f.n, n');
      MulGroup(Pow2(f.n), Pow2(n'), w, v');
    }
  }

  lemma MulGroup(a: nat, b: nat, w: nat, v: nat)
    ensures a * (v + b * w) == a * v + (a * b) * w
  {
  }

  lemma {:induction false} ZerosMake(k: nat, f: Fields, v: nat, n: nat)
    requires Make(f, v, n)
    ensures Make(ThreeZeros(k, f), Pow2(3 * k) * v, 3 * k + n)
  {
    assert Shown(f, 0);
    if k > 0 {
      ZerosMake(k - 1, f, v, n);
      assert Shown(ThreeZeros(k - 1, f), 0);
      Pow2Add(3, 3 * (k - 1));
      assert Pow2(3) == 8;
      MulGroup(8, Pow2(3 * (k - 1)), v, 0);
    }
  }

  lemma ByteBefore(b: Byte, bs: seq<Byte>, v: nat)
    requires Make(OfBytes(bs), v, 8 * |bs|)
    ensures Make(OfBytes([b] + bs), b + 256 * v, 8 * |bs| + 8)
  {
    assert ([b] + bs)[1..] == bs && Shown(OfBytes(bs), 0);
    Pow2Values();
  }

  lemma {:induction false} MoreBytes(a: seq<Byte>, b: seq<Byte>)
    ensures OfBytes(a + b) == Join(OfBytes(a), OfBytes(b))
  {
    if a == [] {
      assert a + b == b;
    } else {
      assert (a + b)[1..] == a[1..] + b;
      MoreBytes(a[1..], b);
    }
  }

  lemma NoBytesMake()
    ensures Make(OfBytes([]), 0, 0) && Make(End, 0, 0)
  {
  }

  lemma OneByteMakes(a: Byte)
    ensures Make(OfBytes([a]), a, 8)
  {
    NoBytesMake();
    ByteBefore(a, [], 0);
    assert [a] + [] == [a];
  }

  lemma FourBytesMake(a: Byte, b: Byte, c: Byte, d: Byte, v: nat)
    requires v == a + 0x100 * b + 0x1_0000 * c + 0x100_0000 * d
    ensures Make(OfBytes([a, b, c, d]), v, 32)
  {
    OneByteMakes(d);
    ByteBefore(c, [d], d);
    ByteBefore(b, [c, d], c + 256 * d);
    ByteBefore(a, [b, c, d], b + 256 * (c + 256 * d));
    assert [c] + [d] == [c, d] && [b] + [c, d] == [b, c, d] && [a] + [b, c, d] == [a, b, c, d];
  }

  ghost function SampleStream(): seq<Byte> {
    [0x05, 0xC0, 0x81, 0x08] + ([0x00, 0x00, 0x00, 0x00] + ([0x20, 0xD6, 0xFD, 0x25] + [0x8E]))
  }

  lemma SampleBytesMake()
    ensures Make(OfBytes(SampleStream()), 0x8E_25FD_D620_0000_0000_0881_C005, 104)
  {
    var a, b, c, d := [0x05, 0xC0, 0x81, 0x08], [0x00, 0x00, 0x00, 0x00], [0x20, 0xD6, 0xFD, 0x25], [0x8E];
    FourBytesMake(0x05, 0xC0, 0x81, 0x08, 0x0881_C005);
    FourBytesMake(0, 0, 0, 0, 0);
    FourBytesMake(0x20, 0xD6, 0xFD, 0x25, 0x25FD_D620);
    OneByteMakes(0x8E);
    PiecesMake(a, 0x0881_C005, b, 0, c, 0x25FD_D620, d, 0x8E);
  }

  lemma PiecesMake(a: seq<Byte>, u: nat, b: seq<Byte>, v: nat, c: seq<Byte>, w: nat, d: seq<Byte>, x: nat)
    requires Make(OfBytes(a), u, 32) && Make(OfBytes(b), v, 32) && Make(OfBytes(c), w, 32) && Make(OfBytes(d), x, 8)
    ensures Make(OfBytes(a + (b + (c + d))),
                 u + 0x1_0000_0000 * (v + 0x1_0000_0000 * (w + 0x1_0000_0000 * x)), 104)
  {
    Pow2Values();
    Pow2Add(16, 16);
    MoreBytes(c, d);
    MoreBytes(b, c + d);
    MoreBytes(a, b + (c + d));
    var w', v' := w + 0x1_0000_0000 * x, v + 0x1_0000_0000 * (w + 0x1_0000_0000 * x);
    JoinMakes(OfBytes(c), w, 32, OfBytes(d), x, 8);
    JoinMakes(OfBytes(b), v, 32, OfBytes(c + d), w', 40);
    JoinMakes(OfBytes(a), u, 32, OfBytes(b + (c + d)), v', 72);
  }

  /** One more field in front. */
  lemma FieldBefore(a: nat, m: nat, p: nat, f: Fields, v: nat, n: nat, w: nat) returns (g: Fields)
    requires Make(f, v, n) && a < p == Pow2(m) && w == a + p * v
    ensures g == Field(a, m, f) && Make(g, w, m + n)
  {
    assert Shown(f, 0);
    g := Field(a, m, f);
  }

  lemma LastField(a: nat, m: nat, p: nat) returns (g: Fields)
    requires a < p == Pow2(m)
    ensures g == Field(a, m, End) && Make(g, a, m)
  {
    NoBytesMake();
    g := FieldBefore(a, m, p, End, 0, 0, a);
  }

  /** The start of the block and the counts. */
  lemma HeadMakes() returns (f: Fields)
    ensures f == Field(1, 1, Field(2, 2, Field(0, 5, Field(0, 5, Field(14, 4, End)))))
    ensures Make(f, 114693, 17)
  {
    PowersTo13();
    f := LastField(14, 4, 16);
    f := FieldBefore(0, 5, 32, f, 14, 4, 448);
    f := FieldBefore(0, 5, 32, f, 448, 9, 14336);
    f := FieldBefore(2, 2, 4, f, 14336, 14, 57346);
    f := FieldBefore(1, 1, 2, f, 57346, 16, 114693);
  }

  /** The operations. */
  lemma OpsMake() returns (f: Fields)
    ensures f == Field(0, 1, Field(86, 7, Field(3, 2,
        Field(0, 1, Field(127, 7, Field(0, 1, Field(9, 7, Field(3, 2, Field(1, 2, End)))))))))
    ensures Make(f, 474741676, 30)
  {
    PowersTo13();
    f := LastField(1, 2, 4);
    f := FieldBefore(3, 2, 4, f, 1, 2, 7);
    f := FieldBefore(9, 7, 128, f, 7, 4, 905);
    f := FieldBefore(0, 1, 2, f, 905, 11, 1810);
    f := FieldBefore(127, 7, 128, f, 1810, 12, 231807);
    f := FieldBefore(0, 1, 2, f, 231807, 19, 463614);
    f := FieldBefore(3, 2, 4, f, 463614, 20, 1854459);
    f := FieldBefore(86, 7, 128, f, 1854459, 22, 237370838);
    f := FieldBefore(0, 1, 2, f, 237370838, 29, 474741676);
  }

  /** Two letters and the end of the block. */
  lemma BodyMakes() returns (f: Fields)
    ensures f == Field(0, 1, Field(0, 1, Field(1, 1, End)))
    ensures Make(f, 4, 3)
  {
    PowersTo13();
    f := LastField(1, 1, 2);
    f := FieldBefore(0, 1, 2, f, 1, 1, 2);
    f := FieldBefore(0, 1, 2, f, 2, 2, 4);
  }

  /** Three zero bits `k` times in front. */
  lemma ZerosBefore(k: nat, p: nat, f: Fields, v: nat, n: nat, w: nat, m: nat) returns (g: Fields)
    requires Make(f, v, n) && p == Pow2(3 * k) && w == p * v && m == 3 * k + n
    ensures g == ThreeZeros(k, f) && Make(g, w, m)
  {
    ZerosMake(k, f, v, n);
    g := ThreeZeros(k, f);
  }

  lemma Pow2Of39()
    ensures Pow2(39) == 0x80_0000_0000
  {
    PowersTo13();
    Pow2Add(13, 13);
    Pow2Add(26, 13);
  }

  /** The code length code. */
  lemma SwizzledMakes() returns (f: Fields)
    ensures f == ThreeZeros(2, Field(1, 3, Field(2, 3, ThreeZeros(13, Field(2, 3, End)))))
    ensures Make(f, 0x10_0000_0000_0440, 54)
  {
    PowersTo13();
    Pow2Of39();
    f := LastField(2, 3, 8);
    f := ZerosBefore(13, 0x80_0000_0000, f, 2, 3, 0x100_0000_0000, 42);
    f := FieldBefore(2, 3, 8, f, 0x100_0000_0000, 42, 0x800_0000_0002);
    f := FieldBefore(1, 3, 8, f, 0x800_0000_0002, 45, 0x4000_0000_0011);
    f := ZerosBefore(2, 64, f, 0x4000_0000_0011, 48, 0x10_0000_0000_0440, 54);
  }

  lemma JoinBefore(f: Fields, v: nat, n: nat, p: nat, g: Fields, w: nat, m: nat, x: nat)
    requires Make(f, v, n) && Make(g, w, m) && p == Pow2(n) && x == v + p * w
    ensures Make(Join(f, g), x, n + m)
  {
    JoinMakes(f, v, n, g, w, m);
  }

  lemma PowersBeyond()
    ensures Pow2(17) == 0x2_0000 && Pow2(30) == 0x4000_0000 && Pow2(54) == 0x40_0000_0000_0000
  {
    PowersTo13();
    Pow2Of39();
    Pow2Add(13, 4);
    Pow2Add(17, 13);
    Pow2Add(39, 13);
    Pow2Add(52, 2);
  }

  /** All of it together. */
  lemma SampleFieldsMake(head: Fields, swz: Fields, ops: Fields, body: Fields)
    requires Make(head, 114693, 17) && Make(swz, 0x10_0000_0000_0440, 54) && Make(ops, 474741676, 30)
    requires Make(body, 4, 3)
    ensures Make(Join(head, Join(swz, Join(ops, body))), 0x8E_25FD_D620_0000_0000_0881_C005, 104)
  {
    PowersBeyond();
    JoinBefore(ops, 474741676, 30, 0x4000_0000, body, 4, 3, 0x11C4BFBAC);
    JoinBefore(swz, 0x10_0000_0000_0440, 54, 0x40_0000_0000_0000, Join(ops, body), 0x11C4BFBAC, 33,
               0x4712FEEB10000000000440);
    JoinBefore(head, 114693, 17, 0x2_0000, Join(swz, Join(ops, body)), 0x4712FEEB10000000000440, 87,
               0x8E_25FD_D620_0000_0000_0881_C005);
  }

  lemma SampleStreamBits()
    ensures BlockStart(true, 2) + HeaderBits(SampleHeader()) + [false, false, true] == BytesToBits(SampleStream())
  {
    var head := HeadMakes();
    var swz := SwizzledMakes();
    var ops := OpsMake();
    var body := BodyMakes();
    SampleOpsFields();
    SampleFieldsMake(head, swz, ops, body);
    SampleBytesMake();
    var all := Join(head, Join(swz, Join(ops, body)));
    SameNumber(all, OfBytes(SampleStream()), 0x8E_25FD_D620_0000_0000_0881_C005, 104);
    BytesAreFields(SampleStream());
    SampleParts();
    SampleHasWords();
    SampleCoded();
    SampleAsFields(SampleHeader(), body);
  }

  lemma SampleParts()
    ensures SwizzledFields(SampleCl(), 0, 18) ==
            ThreeZeros(2, Field(1, 3, Field(2, 3, ThreeZeros(13, Field(2, 3, End)))))
    ensures forall i :: 0 <= i < |SampleOps()| ==> Simple(SampleOps()[i])
  {
    SampleSwizzled(SampleCl());
  }

  lemma SampleAsFields(h: Header, body: Fields)
    requires |h.cl| == MAX_CODE_LENGTHS && h.n == 18 && h.nlit == 257 && h.ndist == 1 && SampleWords(h.cl)
    requires OpsCoded(h.cl, h.ops) && forall i :: 0 <= i < |h.ops| ==> Simple(h.ops[i])
    requires body == Field(0, 1, Field(0, 1, Field(1, 1, End)))
    ensures BlockStart(true, 2) + HeaderBits(h) + [false, false, true] ==
            Spread(Join(Field(1, 1, Field(2, 2, Field(0, 5, Field(0, 5, Field(14, 4, End))))),
                        Join(SwizzledFields(h.cl, 0, 18), Join(OpsFields(h.ops), body))))
  {
    SwizzledAreFields(h.cl, 0, 18);
    OpsAreFields(h.cl, h.ops);
    BodySpread(body);
    BlockAsFields(h, SwizzledFields(h.cl, 0, 18), OpsFields(h.ops), body, [false, false, true]);
  }

  lemma BodySpread(body: Fields)
    requires body == Field(0, 1, Field(0, 1, Field(1, 1, End)))
    ensures Spread(body) == [false, false, true]
  {
    assert ToBits(0, 1) == [false] && ToBits(1, 1) == [true];
  }

  lemma SampleBody(lit: seq<nat>, dist: seq<nat>)
    requires |lit| == 257 && forall i :: 0 <= i < 257 ==> lit[i] == if i == 97 || i == 256 then 1 else 0
    ensures AllEncodable(lit, dist, [Literal(97), Literal(97)])
    ensures BodyBits(lit, dist, [Literal(97), Literal(97)]) == [false, false, true]
    ensures Full(lit) && lit[256] == 1
  {
    SampleLitFull(lit);
    var ts := [Literal(97), Literal(97)];
    assert ts[1..] == [Literal(97)] && ts[1..][1..] == [];
    assert TokensBits(lit, dist, ts[1..]) == [false] + TokensBits(lit, dist, ts[1..][1..]) == [false];
    assert TokensBits(lit, dist, ts) == [false] + [false];
  }

  lemma SampleExpands()
    ensures AllFit([Literal(97), Literal(97)], 0) && Expand([], [Literal(97), Literal(97)]) == [97, 97]
  {
    var ts := [Literal(97), Literal(97)];
    assert ts[1..] == [Literal(97)] && ts[1..][1..] == [];
    assert [] + [97] == [97] && [97] + [97] == [97, 97];
  }

  lemma NoDistances(dist: seq<nat>)
    requires dist == [0]
    ensures Decodable(dist)
  {
    forall l | 1 <= l ensures Count(dist, l) == 0 {
      CountRange(dist, 1, l, 0, 0);
    }
    FirstIs(dist, 1, MAX_CODE_SIZE);
  }

  lemma OneDynamicBlock(h: Header, lens: seq<nat>, ts: seq<Token>, body: seq<bool>, bytes: seq<Byte>, data: seq<Byte>)
    requires GoodHeader(h, lens) && Decodable(lens[..h.nlit]) && Decodable(lens[h.nlit..]) && lens[256] >= 1
    requires AllEncodable(lens[..h.nlit], lens[h.nlit..], ts) && AllFit(ts, 0) && Expand([], ts) == data
    requires BodyBits(lens[..h.nlit], lens[h.nlit..], ts) == body
    requires BlockStart(true, 2) + HeaderBits(h) + body == BytesToBits(bytes)
    ensures Inflate(bytes) == Done(data, [])
  {
    DynamicBlockDecodes(true, h, lens, ts, [], []);
    assert BytesToBits(bytes) + [] == BytesToBits(bytes);
    LastOne(bytes, true, [], data);
  }

  lemma SampleDecodes(h: Header, lens: seq<nat>, bytes: seq<Byte>)
    requires GoodHeader(h, lens) && h.nlit == 257 && |lens| == 258
    requires forall i :: 0 <= i < 258 ==> lens[i] == if i == 97 || i == 256 then 1 else 0
    requires BlockStart(true, 2) + HeaderBits(h) + [false, false, true] == BytesToBits(bytes)
    ensures Inflate(bytes) == Done([97, 97], [])
  {
    assert lens[257..] == [0];
    SampleBody(lens[..257], lens[257..]);
    NoDistances(lens[257..]);
    SampleExpands();
    OneDynamicBlock(h, lens, [Literal(97), Literal(97)], [false, false, true], bytes, [97, 97]);
  }

  lemma SampleStreamIs(bytes: seq<Byte>)
    requires bytes == [0x05, 0xC0, 0x81, 0x08, 0x00, 0x00, 0x00, 0x00, 0x20, 0xD6, 0xFD, 0x25, 0x8E]
    ensures bytes == SampleStream()
  {
    assert bytes[8..] == [0x20, 0xD6, 0xFD, 0x25] + [0x8E];
    assert bytes[4..] == [0x00, 0x00, 0x00, 0x00] + bytes[8..];
    assert bytes == [0x05, 0xC0, 0x81, 0x08] + bytes[4..];
  }

  /** A block with codes of its own, byte by byte. */
  lemma DynamicStream(bytes: seq<Byte>)
    requires bytes == [0x05, 0xC0, 0x81, 0x08, 0x00, 0x00, 0x00, 0x00, 0x20, 0xD6, 0xFD, 0x25, 0x8E]
    ensures Inflate(bytes) == Done([97, 97], [])
  {
    SampleLengthsAt(0);
    forall i | 0 <= i < 258 ensures SampleLengths()[i] == if i == 97 || i == 256 then 1 else 0 {
      SampleLengthsAt(i);
    }
    SampleGood();
    SampleStreamBits();
    SampleStreamIs(bytes);
    SampleDecodes(SampleHeader(), SampleLengths(), bytes);
  }

  // ---- The fixed codes

  /** The table of section 3.2.6 of RFC 1951. */
  lemma FixedCodeTable(lit: seq<nat>, dist: seq<nat>, sym: nat)
    requires FixedLengths(lit, dist) && sym < 288
    ensures Code(lit, sym) ==
            if sym < 144 then 0x30 + sym
            else if sym < 256 then 0x190 + (sym - 144)
            else if sym < 280 then sym - 256
            else 0xC0 + (sym - 280)
    ensures sym < 32 ==> Code(dist, sym) == sym
  {
    FixedFirsts(lit, dist);
    FixedRank(lit, dist, sym);
  }

  lemma FixedFirsts(lit: seq<nat>, dist: seq<nat>)
    requires FixedLengths(lit, dist)
    ensures First(lit, 7) == 0 && First(lit, 8) == 48 && First(lit, 9) == 400 && First(dist, 5) == 0
  {
    forall l ensures Count(lit, l) == if l == 7 then 24 else if l == 8 then 152 else if l == 9 then 112 else 0 {
      FixedLitCounts(lit, dist, l);
    }
    forall l ensures Count(dist, l) == if l == 5 then 32 else 0 {
      CountRange(dist, 32, l, 0, if l == 5 then 32 else 0);
    }
    FirstIs(lit, 1, 7);
    FirstIs(dist, 1, 5);
  }

  /** How many symbols before `sym` have a code word of its length. */
  lemma FixedRank(lit: seq<nat>, dist: seq<nat>, sym: nat)
    requires FixedLengths(lit, dist) && sym < 288
    ensures CountUpTo(lit, sym, lit[sym]) ==
            if sym < 144 then sym
            else if sym < 256 then sym - 144
            else if sym < 280 then sym - 256
            else 144 + (sym - 280)
    ensures sym < 32 ==> CountUpTo(dist, sym, dist[sym]) == sym
  {
    var l := lit[sym];
    if sym < 32 {
      CountRange(dist, sym, 5, 0, sym);
    }
    if sym < 144 {
      CountRange(lit, sym, l, 0, sym);
    } else {
      CountRange(lit, 144, l, 0, if l == 8 then 144 else 0);
      if sym < 256 {
        CountRange(lit, sym, l, 144, sym);
      } else {
        CountRange(lit, 256, l, 144, 144);
        if sym < 280 {
          CountRange(lit, sym, l, 256, sym);
        } else {
          CountRange(lit, 280, l, 256, 256);
          CountRange(lit, sym, l, 280, sym);
        }
      }
    }
  }

  // ---- A block with the fixed codes

  /** Three letters twice, and twelve bytes again from six before. */
  function FixedSample(): seq<Token> {
    [Literal(97), Literal(98), Literal(99), Literal(97), Literal(98), Literal(99), Match(12, 6)]
  }

  /** The bits of a code word, which comes with its highest bit first, as a field. */
  function Mirror(c: nat, n: nat): nat {
    if n == 0 then 0 else Mirror(c / 2, n - 1) + if c % 2 == 1 then Pow2(n - 1) else 0
  }

  lemma {:induction false} MirrorBits(c: nat, n: nat)
    ensures Mirror(c, n) < Pow2(n) && MsbBits(c, n) == ToBits(Mirror(c, n), n)
  {
    if n > 0 {
      MirrorBits(c / 2, n - 1);
      ToBitsConcat(Mirror(c / 2, n - 1), n - 1, c % 2, 1);
      assert ToBits(c % 2, 1) == [c % 2 == 1];
    }
  }

  lemma WordIs(lens: seq<nat>, sym: nat, c: nat, n: nat, v: nat)
    requires sym < |lens| && Code(lens, sym) == c && lens[sym] == n && Mirror(c, n) == v
    ensures CodeBits(lens, sym) == ToBits(v, n)
  {
    MirrorBits(c, n);
  }

  /** One more binary digit. */
  lemma MirrorDigit(c: nat, n: nat, v: nat, d: nat, c': nat, n': nat, w: nat)
    requires Mirror(c, n) == v && d < 2 && w == v + (if d == 1 then Pow2(n) else 0) && c' == 2 * c + d && n' == n + 1
    ensures Mirror(c', n') == w
  {
  }

  /** Two words of eight bits that begin alike. */
  lemma MirrorStart(n: nat)
    requires n == 5
    ensures Mirror(18, n) == 9
  {
    PowersTo13();
    MirrorDigit(0, 0, 0, 1, 1, n - 4, 1);
    MirrorDigit(1, n - 4, 1, 0, 2, n - 3, 1);
    MirrorDigit(2, n - 3, 1, 0, 4, n - 2, 1);
    MirrorDigit(4, n - 2, 1, 1, 9, n - 1, 9);
    MirrorDigit(9, n - 1, 9, 0, 18, n, 9);
  }

  lemma MirroredLetters(n: nat)
    requires n == 8
    ensures Mirror(0x91, n) == 137 && Mirror(0x92, n) == 73 && Mirror(0x93, n) == 201
  {
    PowersTo13();
    MirrorStart(n - 3);
    MirrorDigit(18, n - 3, 9, 0, 36, n - 2, 9);
    MirrorDigit(36, n - 2, 9, 0, 72, n - 1, 9);
    MirrorDigit(36, n - 2, 9, 1, 73, n - 1, 73);
    MirrorDigit(72, n - 1, 9, 1, 0x91, n, 137);
    MirrorDigit(73, n - 1, 73, 0, 0x92, n, 73);
    MirrorDigit(73, n - 1, 73, 1, 0x93, n, 201);
  }

  lemma MirroredNine(n: nat)
    requires n == 7
    ensures Mirror(9, n) == 72
  {
    PowersTo13();
    MirrorDigit(0, n - 4, 0, 1, 1, n - 3, 8);
    MirrorDigit(1, n - 3, 8, 0, 2, n - 2, 8);
    MirrorDigit(2, n - 2, 8, 0, 4, n - 1, 8);
    MirrorDigit(4, n - 1, 8, 1, 9, n, 72);
  }

  lemma MirroredSmall()
    ensures Mirror(0, 7) == 0 && Mirror(4, 5) == 4
  {
  }

  lemma FixedWords(lit: seq<nat>, dist: seq<nat>)
    requires FixedLengths(lit, dist)
    ensures CodeBits(lit, 97) == ToBits(137, 8) && CodeBits(lit, 98) == ToBits(73, 8)
    ensures CodeBits(lit, 99) == ToBits(201, 8) && CodeBits(lit, 265) == ToBits(72, 7)
    ensures CodeBits(lit, 256) == ToBits(0, 7) && CodeBits(dist, 4) == ToBits(4, 5)
  {
    MirroredLetters(8);
    MirroredNine(7);
    MirroredSmall();
    FixedWord(lit, dist, 97, 0x91, 137);
    FixedWord(lit, dist, 98, 0x92, 73);
    FixedWord(lit, dist, 99, 0x93, 201);
    FixedWord(lit, dist, 265, 9, 72);
    FixedWord(lit, dist, 256, 0, 0);
    FixedCodeTable(lit, dist, 4);
    WordIs(dist, 4, 4, 5, 4);
  }

  lemma FixedWord(lit: seq<nat>, dist: seq<nat>, sym: nat, c: nat, v: nat)
    requires FixedLengths(lit, dist) && sym < 288 && Mirror(c, FixedSize(sym)) == v
    requires if sym < 144 then c == 0x30 + sym else 256 <= sym < 280 && c == sym - 256
    ensures CodeBits(lit, sym) == ToBits(v, FixedSize(sym))
  {
    FixedCodeTable(lit, dist, sym);
    WordIs(lit, sym, c, FixedSize(sym), v);
  }

  lemma FixedMatch(lit: seq<nat>, dist: seq<nat>)
    requires FixedLengths(lit, dist)
    ensures Encodable(lit, dist, Match(12, 6))
    ensures TokenBits(lit, dist, Match(12, 6)) == Spread(Field(72, 7, Field(1, 1, Field(4, 5, Field(1, 1, End)))))
  {
    FixedWords(lit, dist);
    assert LenSym(9) == 265 && LenExtra(9) == 1 && DistSym(5) == 4 && DistExtra(5) == 1;
    PowersTo13();
    assert Low(9, 1) == 1 && Low(5, 1) == 1;
    TwoFields(ToBits(72, 7), ToBits(1, 1), ToBits(4, 5), ToBits(1, 1));
  }

  lemma TwoFields(a: seq<bool>, b: seq<bool>, c: seq<bool>, d: seq<bool>)
    ensures (a + b) + (c + d) == a + (b + (c + (d + [])))
  {
  }

  lemma LetterFirst(lit: seq<nat>, dist: seq<nat>, b: Byte, v: nat, ts: seq<Token>, f: Fields) returns (g: Fields)
    requires AllEncodable(lit, dist, ts) && b < |lit| && lit[b] >= 1 && CodeBits(lit, b) == ToBits(v, 8)
    requires TokensBits(lit, dist, ts) == Spread(f)
    ensures AllEncodable(lit, dist, [Literal(b)] + ts) && g == Field(v, 8, f)
    ensures TokensBits(lit, dist, [Literal(b)] + ts) == Spread(g)
  {
    g := Field(v, 8, f);
    assert ([Literal(b)] + ts)[1..] == ts;
  }

  /** The last two letters and what is behind them. */
  lemma FixedTailMakes() returns (f: Fields)
    ensures f == Field(73, 8, Field(201, 8, Field(72, 7, Field(1, 1, Field(4, 5, Field(1, 1, Field(0, 7, End)))))))
    ensures Make(f, 617138505, 37)
  {
    PowersTo13();
    f := LastField(0, 7, 128);
    f := FieldBefore(1, 1, 2, f, 0, 7, 1);
    f := FieldBefore(4, 5, 32, f, 1, 8, 36);
    f := FieldBefore(1, 1, 2, f, 36, 13, 73);
    f := FieldBefore(72, 7, 128, f, 73, 14, 9416);
    f := FieldBefore(201, 8, 256, f, 9416, 21, 2410697);
    f := FieldBefore(73, 8, 256, f, 2410697, 29, 617138505);
  }

  lemma FixedFieldsMake() returns (f: Fields)
    ensures f == Field(1, 1, Field(1, 2, Field(137, 8, Field(73, 8, Field(201, 8, Field(137, 8,
                 Field(73, 8, Field(201, 8, Field(72, 7, Field(1, 1,
                     Field(4, 5, Field(1, 1, Field(0, 7, End)))))))))))))
    ensures Make(f, 0x1_2646_4A4C_4E4A_4C4B, 72)
  {
    PowersTo13();
    f := FixedTailMakes();
    f := FieldBefore(137, 8, 256, f, 617138505, 37, 157987457417);
    f := FieldBefore(201, 8, 256, f, 157987457417, 45, 40444789098953);
    f := FieldBefore(73, 8, 256, f, 40444789098953, 53, 10353866009332041);
    f := FieldBefore(137, 8, 256, f, 10353866009332041, 61, 2650589698389002633);
    f := FieldBefore(1, 2, 4, f, 2650589698389002633, 69, 10602358793556010533);
    f := FieldBefore(1, 1, 2, f, 10602358793556010533, 71, 21204717587112021067);
  }

  /** The three letters in front of other tokens. */
  lemma LettersFirst(lit: seq<nat>, dist: seq<nat>, ts: seq<Token>, f: Fields) returns (g: Fields)
    requires FixedLengths(lit, dist) && AllEncodable(lit, dist, ts) && TokensBits(lit, dist, ts) == Spread(f)
    ensures AllEncodable(lit, dist, [Literal(97), Literal(98), Literal(99)] + ts)
    ensures TokensBits(lit, dist, [Literal(97), Literal(98), Literal(99)] + ts) == Spread(g)
    ensures g == Field(137, 8, Field(73, 8, Field(201, 8, f)))
  {
    FixedWords(lit, dist);
    g := ThreeFirst(lit, dist, 97, 137, 98, 73, 99, 201, ts, f);
  }

  lemma ThreeFirst(lit: seq<nat>, dist: seq<nat>, a: Byte, u: nat, b: Byte, v: nat, c: Byte, w: nat, ts: seq<Token>,
                   f: Fields) returns (g: Fields)
    requires AllEncodable(lit, dist, ts) && TokensBits(lit, dist, ts) == Spread(f) && |lit| == 288
    requires lit[a] >= 1 && CodeBits(lit, a) == ToBits(u, 8) && lit[b] >= 1 && CodeBits(lit, b) == ToBits(v, 8)
    requires lit[c] >= 1 && CodeBits(lit, c) == ToBits(w, 8)
    ensures AllEncodable(lit, dist, [Literal(a), Literal(b), Literal(c)] + ts)
    ensures TokensBits(lit, dist, [Literal(a), Literal(b), Literal(c)] + ts) == Spread(g)
    ensures g == Field(u, 8, Field(v, 8, Field(w, 8, f)))
  {
    g := LetterFirst(lit, dist, c, w, ts, f);
    g := LetterFirst(lit, dist, b, v, [Literal(c)] + ts, g);
    g := LetterFirst(lit, dist, a, u, [Literal(b)] + ([Literal(c)] + ts), g);
    assert [Literal(a)] + ([Literal(b)] + ([Literal(c)] + ts)) == [Literal(a), Literal(b), Literal(c)] + ts;
  }

  lemma FixedTokens(lit: seq<nat>, dist: seq<nat>) returns (f: Fields)
    requires FixedLengths(lit, dist)
    ensures AllEncodable(lit, dist, FixedSample()) && TokensBits(lit, dist, FixedSample()) == Spread(f)
    ensures f == Field(137, 8, Field(73, 8, Field(201, 8, Field(137, 8, Field(73, 8, Field(201, 8,
                       Field(72, 7, Field(1, 1, Field(4, 5, Field(1, 1, End))))))))))
  {
    FixedMatch(lit, dist);
    f := Field(72, 7, Field(1, 1, Field(4, 5, Field(1, 1, End))));
    var ts := [Match(12, 6)];
    assert ts[1..] == [] && TokensBits(lit, dist, ts) == TokenBits(lit, dist, ts[0]) + [];
    f := LettersFirst(lit, dist, ts, f);
    f := LettersFirst(lit, dist, [Literal(97), Literal(98), Literal(99)] + ts, f);
    assert FixedSample() == [Literal(97), Literal(98), Literal(99)] + ([Literal(97), Literal(98), Literal(99)] + ts);
  }

  lemma FixedBodyBits(lit: seq<nat>, dist: seq<nat>) returns (f: Fields)
    requires FixedLengths(lit, dist)
    ensures AllEncodable(lit, dist, FixedSample())
    ensures BlockStart(true, 1) + BodyBits(lit, dist, FixedSample()) == Spread(f)
    ensures Make(f, 0x1_2646_4A4C_4E4A_4C4B, 72)
  {
    f := FixedFieldsMake();
    var g := FixedTokens(lit, dist);
    FixedWords(lit, dist);
    var last := Field(0, 7, End);
    SpreadJoin(g, last);
    assert Spread(last) == ToBits(0, 7) + [];
    StartJoins(BodyBits(lit, dist, FixedSample()), Join(g, last));
  }

  lemma StartJoins(body: seq<bool>, f: Fields)
    requires body == Spread(f)
    ensures BlockStart(true, 1) + body == Spread(Field(1, 1, Field(1, 2, f)))
  {
    assert ToBits(1, 1) == [true];
    Regroup([true], ToBits(1, 2), body);
  }

  lemma FixedBytesMake(bytes: seq<Byte>)
    requires bytes == [0x4B, 0x4C, 0x4A, 0x4E, 0x4C, 0x4A, 0x46, 0x26, 0x01]
    ensures Make(OfBytes(bytes), 0x1_2646_4A4C_4E4A_4C4B, 72)
  {
    var a, b, c := [0x4B, 0x4C, 0x4A, 0x4E], [0x4C, 0x4A, 0x46, 0x26], [0x01];
    FourBytesMake(0x4B, 0x4C, 0x4A, 0x4E, 0x4E4A_4C4B);
    FourBytesMake(0x4C, 0x4A, 0x46, 0x26, 0x2646_4A4C);
    OneByteMakes(0x01);
    NineBytesMake(a, 0x4E4A_4C4B, b, 0x2646_4A4C, c, 1);
    assert bytes[4..] == b + c;
    assert bytes == a + bytes[4..];
  }

  lemma NineBytesMake(a: seq<Byte>, u: nat, b: seq<Byte>, v: nat, c: seq<Byte>, w: nat)
    requires Make(OfBytes(a), u, 32) && Make(OfBytes(b), v, 32) && Make(OfBytes(c), w, 8)
    ensures Make(OfBytes(a + (b + c)), u + 0x1_0000_0000 * (v + 0x1_0000_0000 * w), 72)
  {
    Pow2Values();
    Pow2Add(16, 16);
    MoreBytes(b, c);
    MoreBytes(a, b + c);
    JoinMakes(OfBytes(b), v, 32, OfBytes(c), w, 8);
    JoinMakes(OfBytes(a), u, 32, OfBytes(b + c), v + 0x1_0000_0000 * w, 40);
  }

  lemma LetterExpands(out: seq<Byte>, b: Byte, ts: seq<Token>)
    requires AllFit(ts, |out| + 1)
    ensures AllFit([Literal(b)] + ts, |out|) && Expand(out, [Literal(b)] + ts) == Expand(out + [b], ts)
  {
    assert ([Literal(b)] + ts)[1..] == ts;
  }

  /** Three letters, and the place behind them. */
  lemma LettersExpand(data: seq<Byte>, n: nat, a: Byte, b: Byte, c: Byte, ts: seq<Token>)
    requires n + 3 <= |data| && data[n] == a && data[n + 1] == b && data[n + 2] == c && AllFit(ts, n + 3)
    ensures AllFit([Literal(a), Literal(b), Literal(c)] + ts, n)
    ensures Expand(data[..n], [Literal(a), Literal(b), Literal(c)] + ts) == Expand(data[..n + 3], ts)
  {
    assert data[..n] + [a] == data[..n + 1] && data[..n + 1] + [b] == data[..n + 2];
    assert data[..n + 2] + [c] == data[..n + 3];
    LetterExpands(data[..n + 2], c, ts);
    LetterExpands(data[..n + 1], b, [Literal(c)] + ts);
    LetterExpands(data[..n], a, [Literal(b)] + ([Literal(c)] + ts));
    assert [Literal(a)] + ([Literal(b)] + ([Literal(c)] + ts)) == [Literal(a), Literal(b), Literal(c)] + ts;
  }

  lemma MatchExpands(data: seq<Byte>)
    requires |data| == 18 && forall i :: 0 <= i < 18 ==> data[i] == 97 + i % 3
    ensures AllFit([Match(12, 6)], 6) && Expand(data[..6], [Match(12, 6)]) == data
  {
    CopyRepeats(data[..6], 12, 6, data);
    assert [Match(12, 6)][1..] == [];
  }

  lemma FixedExpands(data: seq<Byte>)
    requires |data| == 18 && forall i :: 0 <= i < 18 ==> data[i] == 97 + i % 3
    ensures AllFit(FixedSample(), 0) && Expand([], FixedSample()) == data
  {
    MatchExpands(data);
    TwiceThree(data, 97, 98, 99, [Match(12, 6)]);
    SampleIs([Literal(97), Literal(98), Literal(99)], [Match(12, 6)]);
  }

  lemma TwiceThree(data: seq<Byte>, a: Byte, b: Byte, c: Byte, last: seq<Token>)
    requires |data| >= 6 && data[0] == data[3] == a && data[1] == data[4] == b && data[2] == data[5] == c
    requires AllFit(last, 6)
    ensures var abc := [Literal(a), Literal(b), Literal(c)];
            AllFit(abc + (abc + last), 0) && Expand([], abc + (abc + last)) == Expand(data[..6], last)
  {
    LettersExpand(data, 3, a, b, c, last);
    LettersExpand(data, 0, a, b, c, [Literal(a), Literal(b), Literal(c)] + last);
    assert data[..0] == [];
  }

  lemma SampleIs(abc: seq<Token>, last: seq<Token>)
    requires abc == [Literal(97), Literal(98), Literal(99)] && last == [Match(12, 6)]
    ensures FixedSample() == abc + (abc + last)
  {
  }

  /** A block with the fixed codes, byte by byte. */
  lemma FixedStream(bytes: seq<Byte>, data: seq<Byte>)
    requires bytes == [0x4B, 0x4C, 0x4A, 0x4E, 0x4C, 0x4A, 0x46, 0x26, 0x01]
    requires |data| == 18 && forall i :: 0 <= i < 18 ==> data[i] == 97 + i % 3
    ensures Inflate(bytes) == Done(data, [])
  {
    var c := FixedCodes(true);
    var f := FixedBodyBits(c.lit, c.dist);
    FixedBytesMake(bytes);
    SameNumber(f, OfBytes(bytes), 0x1_2646_4A4C_4E4A_4C4B, 72);
    BytesAreFields(bytes);
    FixedExpands(data);
    FixedBlockDecodes(true, c.lit, c.dist, FixedSample(), [], []);
    assert BytesToBits(bytes) + [] == BytesToBits(bytes);
    LastOne(bytes, true, [], data);
  }
}
