/**
 The Adler-32 checksum (RFC 1950, section 8.2) with the modulo deferred to the
 end of each block of 5552 bytes.
 */
module Adler {
  import opened Bits

  type U32 = x: nat | x < 0x1_0000_0000

  const BASE := 65521
  /** How many bytes can be summed before 32 bits overflow. */
  const BLOCK := 5552

  // ---- The checksum byte by byte

  datatype Sums = Sums(a: nat, b: nat)

  function Step(s: Sums, c: Byte): Sums {
    Sums((s.a + c) % BASE, (s.b + (s.a + c) % BASE) % BASE)
  }

  function Run(s: Sums, bs: seq<Byte>): Sums {
    if bs == [] then s else Step(Run(s, bs[..|bs| - 1]), bs[|bs| - 1])
  }

  /** The checksum of `bs` continued from `adler`. */
  function Checksum(adler: U32, bs: seq<Byte>): (r: U32)
  {
    var s := Run(Sums(adler % 0x1_0000, adler / 0x1_0000), bs);
    RunBounds(Sums(adler % 0x1_0000, adler / 0x1_0000), bs);
    s.b * 0x1_0000 + s.a
  }

  lemma RunBounds(s: Sums, bs: seq<Byte>)
    requires s.a < 0x1_0000 && s.b < 0x1_0000
    ensures Run(s, bs).a < 0x1_0000 && Run(s, bs).b < 0x1_0000
    ensures bs != [] ==> Run(s, bs).a < BASE && Run(s, bs).b < BASE
  {
  }

  lemma {:induction false} RunConcat(s: Sums, x: seq<Byte>, y: seq<Byte>)
    ensures Run(s, x + y) == Run(Run(s, x), y)
    decreases |y|
  {
    if y == [] {
      assert x + y == x;
    } else {
      var y0 := y[..|y| - 1];
      assert (x + y)[..|x + y| - 1] == x + y0;
      RunConcat(s, x, y0);
    }
  }

  /** Checksums of consecutive pieces compose to the checksum of the whole. */
  lemma ChecksumConcat(adler: U32, x: seq<Byte>, y: seq<Byte>)
    ensures Checksum(adler, x + y) == Checksum(Checksum(adler, x), y)
  {
    var s := Sums(adler % 0x1_0000, adler / 0x1_0000);
    var m := Run(s, x);
    RunConcat(s, x, y);
    RunBounds(s, x);
    Halves(m.a, m.b);
  }

  lemma Halves(a: nat, b: nat)
    requires a < 0x1_0000
    ensures (b * 0x1_0000 + a) % 0x1_0000 == a && (b * 0x1_0000 + a) / 0x1_0000 == b
  {
    DivModUnique(b * 0x1_0000 + a, 0x1_0000, b, a);
  }

  // ---- The two sums in closed form

  function ByteSum(bs: seq<Byte>): nat {
    if bs == [] then 0 else bs[0] + ByteSum(bs[1..])
  }

  /** Every byte counts as often as there are bytes from it on. */
  function WeightedSum(bs: seq<Byte>): nat {
    if bs == [] then 0 else |bs| * bs[0] + WeightedSum(bs[1..])
  }

  lemma {:induction false} SumsSnoc(bs: seq<Byte>, c: Byte)
    ensures ByteSum(bs + [c]) == ByteSum(bs) + c
    ensures WeightedSum(bs + [c]) == WeightedSum(bs) + ByteSum(bs) + c
  {
    if bs == [] {
      assert [] + [c] == [c] && [c][1..] == [];
    } else {
      assert (bs + [c])[1..] == bs[1..] + [c];
      SumsSnoc(bs[1..], c);
      assert (|bs| + 1) * bs[0] == |bs| * bs[0] + bs[0];
    }
  }

  lemma ModsAdd(x: nat, y: nat)
    ensures (x % BASE + y % BASE) % BASE == (x + y) % BASE
  {
    ModShift(x % BASE, x, y % BASE);
    ModShift(y % BASE, y, x);
  }

  lemma {:induction false} RunIsSums(bs: seq<Byte>)
    ensures Run(Sums(1, 0), bs) == Sums((1 + ByteSum(bs)) % BASE, (|bs| + WeightedSum(bs)) % BASE)
    decreases |bs|
  {
    if bs != [] {
      var n := |bs| - 1;
      var before, c := bs[..n], bs[n];
      RunIsSums(before);
      assert before + [c] == bs;
      SumsSnoc(before, c);
      ModShift((1 + ByteSum(before)) % BASE, 1 + ByteSum(before), c);
      ModsAdd(n + WeightedSum(before), 1 + ByteSum(bs));
    }
  }

  /** Section 8.2 of RFC 1950: 1 plus the bytes, and the sum of those sums, both modulo 65521. */
  lemma ChecksumIs(bs: seq<Byte>)
    ensures Checksum(1, bs) ==
            (|bs| + WeightedSum(bs)) % 65521 * 65536 + (1 + ByteSum(bs)) % 65521
  {
    RunIsSums(bs);
  }

  // ---- Deferring the modulo

  ghost predicate Congruent(x: nat, y: nat, s: Sums) {
    x % BASE == s.a % BASE && y % BASE == s.b % BASE
  }

  lemma ModShift(x: nat, p: nat, c: nat)
    requires x % BASE == p % BASE
    ensures (x + c) % BASE == (p + c) % BASE
  {
    var k, j := x / BASE, p / BASE;
    var r := x % BASE;
    ModShiftBy(r, c, k);
    ModShiftBy(r, c, j);
    assert x + c == BASE * k + (r + c) && p + c == BASE * j + (r + c);
  }

  lemma ModShiftBy(r: nat, c: nat, k: nat)
    ensures (BASE * k + (r + c)) % BASE == (r + c) % BASE
  {
    var q, s := (r + c) / BASE, (r + c) % BASE;
    DivModUnique(BASE * k + (r + c), BASE, k + q, s);
  }

  lemma CongruentStep(x: nat, y: nat, s: Sums, c: Byte)
    requires Congruent(x, y, s)
    ensures Congruent(x + c, y + (x + c), Step(s, c))
  {
    var t := (s.a + c) % BASE;
    ModShift(x, s.a, c);
    assert (x + c) % BASE == t == t % BASE;
    ModShift(y, s.b, x + c);
    ModShift(x + c, t, s.b);
  }

  /** The largest second sum after `i` bytes. */
  function MostB(i: nat): nat {
    if i == 0 then 0xFFFF else MostB(i - 1) + 0xFFFF + 255 * i
  }

  lemma {:induction false} MostBIs(i: nat)
    ensures 2 * MostB(i) == 0x1FFFE + 0x1FFFE * i + 255 * (i * (i + 1))
  {
    if i > 0 {
      MostBIs(i - 1);
      assert (i - 1) * ((i - 1) + 1) + 2 * i == i * (i + 1);
    }
  }

  lemma {:induction false} MostBGrows(i: nat, j: nat)
    requires i <= j
    ensures MostB(i) <= MostB(j)
    decreases j
  {
    if i < j {
      MostBGrows(i, j - 1);
    }
  }

  /** No sum overflows 32 bits within a block. */
  lemma BlockFits(i: nat)
    requires i <= BLOCK
    ensures MostB(i) < 0x1_0000_0000 && 0xFFFF + 255 * i < 0x1_0000_0000
  {
    MostBGrows(i, BLOCK);
    MostBIs(BLOCK);
  }

  /** The sums after `i` bytes of a block: `seen` bytes in all. */
  ghost predicate InBlock(x: nat, y: nat, i: nat, s: Sums) {
    i <= BLOCK && x <= 0xFFFF + 255 * i && y <= MostB(i) && Congruent(x, y, s)
  }

  method AddByte(s1: U32, s2: U32, c: Byte, ghost i: nat, ghost s: Sums) returns (s1': U32, s2': U32)
    requires InBlock(s1, s2, i, s) && i < BLOCK
    ensures InBlock(s1', s2', i + 1, Step(s, c))
  {
    BlockFits(i + 1);
    CongruentStep(s1, s2, s, c);
    s1' := s1 + c;
    s2' := s2 + s1';
  }

  /** Adds `n` bytes from position `at` on; `i` of the block have been added before. */
  method AddRun(a: U32, b: U32, bs: seq<Byte>, at: nat, n: nat, ghost i: nat, ghost start: Sums)
    returns (s1: U32, s2: U32)
    requires at + n <= |bs| && i + n <= BLOCK && InBlock(a, b, i, Run(start, bs[..at]))
    ensures InBlock(s1, s2, i + n, Run(start, bs[..at + n]))
  {
    s1, s2 := a, b;
    var k: nat := 0;
    while k < n
      invariant k <= n && InBlock(s1, s2, i + k, Run(start, bs[..at + k]))
    {
      TakeOne(bs, at + k, start);
      s1, s2 := AddByte(s1, s2, bs[at + k], i + k, Run(start, bs[..at + k]));
      k := k + 1;
    }
  }

  /** One block: eight bytes at a time, then the rest. */
  method AddBlock(a: U32, b: U32, bs: seq<Byte>, at: nat, blockLen: nat, ghost start: Sums) returns (s1: U32, s2: U32)
    requires at + blockLen <= |bs| && blockLen <= BLOCK && InBlock(a, b, 0, Run(start, bs[..at]))
    ensures InBlock(s1, s2, blockLen, Run(start, bs[..at + blockLen]))
  {
    s1, s2 := a, b;
    var i: nat := 0;
    while i + 7 < blockLen
      invariant i <= blockLen && InBlock(s1, s2, i, Run(start, bs[..at + i]))
    {
      s1, s2 := AddRun(s1, s2, bs, at + i, 8, i, start);
      i := i + 8;
    }
    s1, s2 := AddRun(s1, s2, bs, at + i, blockLen - i, i, start);
  }

  lemma TakeOne(bs: seq<Byte>, n: nat, start: Sums)
    requires n < |bs|
    ensures Run(start, bs[..n + 1]) == Step(Run(start, bs[..n]), bs[n])
  {
    assert bs[..n + 1][..n] == bs[..n];
  }

  /** `mz_adler32`: deferring the modulo does not change the checksum. */
  method Adler32(adler: U32, bs: seq<Byte>) returns (r: U32)
    ensures r == Checksum(adler, bs)
  {
    var s1: U32, s2: U32 := adler % 0x1_0000, adler / 0x1_0000;
    ghost var start, k, first := Sums(s1, s2), |bs| / BLOCK, true;
    var left: nat, blockLen: nat, at: nat := |bs|, |bs| % BLOCK, 0;
    assert bs[..0] == [];
    // The first block may be empty; then only the sums are reduced.
    while left > 0
      invariant at + left == |bs| && blockLen <= BLOCK && (left == 0 || left == blockLen + BLOCK * k)
      invariant s1 < 0x1_0000 && s2 < 0x1_0000 && Congruent(s1, s2, Run(start, bs[..at]))
      invariant if first then at == 0 && Sums(s1, s2) == start
                else bs != [] && s1 < BASE && s2 < BASE && blockLen == BLOCK
      decreases left, if first then 1 else 0
    {
      s1, s2 := AddBlock(s1, s2, bs, at, blockLen, start);
      s1, s2 := Reduce(s1, s2, Run(start, bs[..at + blockLen]));
      at, left := at + blockLen, left - blockLen;
      blockLen := BLOCK;
      k, first := if k > 0 then k - 1 else 0, false;
    }
    assert bs[..at] == bs;
    RunBounds(start, bs);
    SumsAre(s1, s2, Run(start, bs), bs == []);
    r := s2 * 0x1_0000 + s1;
  }

  method Reduce(x: U32, y: U32, ghost s: Sums) returns (s1: U32, s2: U32)
    requires Congruent(x, y, s)
    ensures s1 < BASE && s2 < BASE && Congruent(s1, s2, s)
  {
    s1, s2 := x % BASE, y % BASE;
  }

  lemma SumsAre(x: nat, y: nat, s: Sums, same: bool)
    requires Congruent(x, y, s) && if same then Sums(x, y) == s else x < BASE && y < BASE && s.a < BASE && s.b < BASE
    ensures Sums(x, y) == s
  {
  }
}
