/**
 Canonical Huffman codes (RFC 1951, section 3.2.2): code lengths alone determine
 the code words.
 */
module Canonical {
  import opened Bits

  const MAX_CODE_SIZE := 15

  /** How many of the first `n` symbols have length `l`. */
  function CountUpTo(lens: seq<nat>, n: nat, l: nat): (c: nat)
    requires n <= |lens|
    ensures c <= n
  {
    if n == 0 then 0 else CountUpTo(lens, n - 1, l) + (if lens[n - 1] == l then 1 else 0)
  }

  function Count(lens: seq<nat>, l: nat): (c: nat)
    ensures c <= |lens|
  {
    CountUpTo(lens, |lens|, l)
  }

  /** The first code word of length `l`. */
  function First(lens: seq<nat>, l: nat): nat
    decreases l, lens
  {
    if l <= 1 then 0 else 2 * (First(lens, l - 1) + Count(lens, l - 1))
  }

  /** The code word of a symbol, as a number. */
  function Code(lens: seq<nat>, sym: nat): nat
    requires sym < |lens|
  {
    First(lens, lens[sym]) + CountUpTo(lens, sym, lens[sym])
  }

  /** The code word of a symbol, as it appears in the stream. */
  function CodeBits(lens: seq<nat>, sym: nat): (s: seq<bool>)
    requires sym < |lens|
    ensures |s| == lens[sym]
  {
    MsbBits(Code(lens, sym), lens[sym])
  }

  ghost predicate SizesFit(lens: seq<nat>) {
    forall i :: 0 <= i < |lens| ==> lens[i] <= MAX_CODE_SIZE
  }

  /** Kraft sum of the symbols with lengths 1 to `l`, in units of 2^-l. */
  function Filled(lens: seq<nat>, l: nat): nat {
    First(lens, l) + (if l == 0 then 0 else Count(lens, l))
  }

  /** Not more code words than there is room for. */
  ghost predicate Prefixable(lens: seq<nat>) {
    SizesFit(lens) && Filled(lens, MAX_CODE_SIZE) <= Pow2(MAX_CODE_SIZE)
  }

  /** Exactly as many code words as there is room for. */
  ghost predicate Full(lens: seq<nat>) {
    SizesFit(lens) && Filled(lens, MAX_CODE_SIZE) == Pow2(MAX_CODE_SIZE)
  }

  lemma {:induction false} CountMono(lens: seq<nat>, m: nat, n: nat, l: nat)
    requires m <= n <= |lens|
    ensures CountUpTo(lens, m, l) <= CountUpTo(lens, n, l)
    ensures m < n && lens[m] == l ==> CountUpTo(lens, m, l) < CountUpTo(lens, n, l)
    decreases n
  {
    if m < n {
      CountMono(lens, m, n - 1, l);
    }
  }

  lemma RankBelowCount(lens: seq<nat>, sym: nat)
    requires sym < |lens|
    ensures CountUpTo(lens, sym, lens[sym]) < Count(lens, lens[sym])
  {
    CountMono(lens, sym, |lens|, lens[sym]);
  }

  /** Longer code words start after all shorter ones. */
  lemma {:induction false} FirstGrows(lens: seq<nat>, l: nat, m: nat)
    requires 1 <= l < m
    ensures First(lens, m) >= Filled(lens, l) * Pow2(m - l)
    decreases m
  {
    if l + 1 < m {
      FirstGrows(lens, l, m - 1);
      assert Pow2(m - l) == 2 * Pow2(m - 1 - l);
      MulDouble(Filled(lens, l), Pow2(m - 1 - l));
    } else {
      assert Pow2(m - l) == 2 * Pow2(0);
    }
  }

  /** Room at the deepest level means room at every level. */
  lemma {:induction false} FilledFits(lens: seq<nat>, l: nat, m: nat)
    requires 1 <= l <= m && Filled(lens, m) <= Pow2(m)
    ensures Filled(lens, l) <= Pow2(l)
    decreases m
  {
    if l < m {
      assert Pow2(m) == 2 * Pow2(m - 1);
      FilledFits(lens, l, m - 1);
    }
  }

  lemma CodeFits(lens: seq<nat>, sym: nat)
    requires sym < |lens| && lens[sym] >= 1 && Prefixable(lens)
    ensures Code(lens, sym) < Pow2(lens[sym])
  {
    RankBelowCount(lens, sym);
    FilledFits(lens, lens[sym], MAX_CODE_SIZE);
  }

  lemma CodesDiffer(lens: seq<nat>, a: nat, b: nat)
    requires a < |lens| && b < |lens| && a != b && lens[a] == lens[b]
    ensures Code(lens, a) != Code(lens, b)
  {
    if a < b {
      CountMono(lens, a, b, lens[a]);
    } else {
      CountMono(lens, b, a, lens[a]);
    }
  }

  lemma LongerIsBeyond(lens: seq<nat>, a: nat, b: nat)
    requires a < |lens| && b < |lens| && 1 <= lens[a] < lens[b]
    ensures Code(lens, b) >= Code(lens, a) * Pow2(lens[b] - lens[a]) + Pow2(lens[b] - lens[a])
  {
    FirstGrows(lens, lens[a], lens[b]);
    RankBelowCount(lens, a);
    NextBlock(Code(lens, a), Filled(lens, lens[a]), Pow2(lens[b] - lens[a]));
  }

  lemma PrefixValue(x: seq<bool>, y: seq<bool>)
    requires x <= y
    ensures MsbVal(y) < MsbVal(x) * Pow2(|y| - |x|) + Pow2(|y| - |x|)
    ensures |x| == |y| ==> x == y
  {
    assert y[..|x|] == x;
    MsbValTake(y, |x|);
  }

  lemma CodeValue(lens: seq<nat>, a: nat)
    requires Prefixable(lens) && a < |lens| && lens[a] >= 1
    ensures MsbVal(CodeBits(lens, a)) == Code(lens, a)
  {
    CodeFits(lens, a);
    MsbValBits(Code(lens, a), lens[a]);
  }

  lemma NoCodeStartsLonger(lens: seq<nat>, a: nat, b: nat)
    requires a < |lens| && b < |lens| && 1 <= lens[a] < lens[b]
    requires MsbVal(CodeBits(lens, a)) == Code(lens, a) && MsbVal(CodeBits(lens, b)) == Code(lens, b)
    ensures !(CodeBits(lens, a) <= CodeBits(lens, b))
  {
    LongerIsBeyond(lens, a, b);
    if CodeBits(lens, a) <= CodeBits(lens, b) {
      PrefixValue(CodeBits(lens, a), CodeBits(lens, b));
    }
  }

  lemma NoCodeTwice(lens: seq<nat>, a: nat, b: nat)
    requires a < |lens| && b < |lens| && a != b && lens[a] == lens[b]
    requires MsbVal(CodeBits(lens, a)) == Code(lens, a) && MsbVal(CodeBits(lens, b)) == Code(lens, b)
    ensures !(CodeBits(lens, a) <= CodeBits(lens, b))
  {
    CodesDiffer(lens, a, b);
    SamePrefixLength(CodeBits(lens, a), CodeBits(lens, b));
  }

  lemma SamePrefixLength(x: seq<bool>, y: seq<bool>)
    requires |x| == |y|
    ensures x <= y ==> x == y
  {
  }

  /** No code word is a prefix of another. */
  lemma CodesArePrefixFree(lens: seq<nat>, a: nat, b: nat)
    requires Prefixable(lens)
    requires a < |lens| && b < |lens| && a != b && lens[a] >= 1 && lens[b] >= 1
    ensures !(CodeBits(lens, a) <= CodeBits(lens, b))
  {
    CodeValue(lens, a);
    CodeValue(lens, b);
    if lens[a] < lens[b] {
      NoCodeStartsLonger(lens, a, b);
    } else if lens[a] == lens[b] {
      NoCodeTwice(lens, a, b);
    } else {
      assert |CodeBits(lens, a)| > |CodeBits(lens, b)|;
    }
  }

  lemma NextBlock(c: nat, filled: nat, p: nat)
    requires c < filled
    ensures c * p + p <= filled * p
  {
    Bits.MulMono(p, c + 1, filled);
  }

  // ---- Decoding

  /** The code word of `sym` comes next in `bits`. */
  predicate Next(lens: seq<nat>, bits: seq<bool>, sym: nat) {
    sym < |lens| && lens[sym] >= 1 && CodeBits(lens, sym) <= bits
  }

  lemma NextIsUnique(lens: seq<nat>, bits: seq<bool>, a: nat, b: nat)
    requires Prefixable(lens) && Next(lens, bits, a) && Next(lens, bits, b)
    ensures a == b
  {
    if a != b {
      CodesArePrefixFree(lens, a, b);
      CodesArePrefixFree(lens, b, a);
    }
  }

  function FindFrom(lens: seq<nat>, bits: seq<bool>, i: nat): (sym: nat)
    requires i <= |lens|
    ensures sym <= |lens|
    decreases |lens| - i
  {
    if i == |lens| || Next(lens, bits, i) then i else FindFrom(lens, bits, i + 1)
  }

  /** The symbol whose code word comes next, or `|lens|` when there is none. */
  function DecodeSym(lens: seq<nat>, bits: seq<bool>): (sym: nat)
    ensures sym <= |lens|
  {
    FindFrom(lens, bits, 0)
  }

  lemma {:induction false} FindFromFinds(lens: seq<nat>, bits: seq<bool>, i: nat, sym: nat)
    requires Prefixable(lens) && i <= sym && Next(lens, bits, sym)
    ensures FindFrom(lens, bits, i) == sym
    decreases |lens| - i
  {
    if Next(lens, bits, i) {
      NextIsUnique(lens, bits, i, sym);
    } else {
      FindFromFinds(lens, bits, i + 1, sym);
    }
  }

  lemma {:induction false} FindFromSound(lens: seq<nat>, bits: seq<bool>, i: nat)
    requires i <= |lens|
    ensures FindFrom(lens, bits, i) < |lens| ==> Next(lens, bits, FindFrom(lens, bits, i))
    decreases |lens| - i
  {
    if i < |lens| && !Next(lens, bits, i) {
      FindFromSound(lens, bits, i + 1);
    }
  }

  /** Decoding finds exactly the symbol whose code word was written. */
  lemma DecodeIffNext(lens: seq<nat>, bits: seq<bool>, sym: nat)
    requires Prefixable(lens) && sym < |lens|
    ensures DecodeSym(lens, bits) == sym <==> Next(lens, bits, sym)
  {
    FindFromSound(lens, bits, 0);
    if Next(lens, bits, sym) {
      FindFromFinds(lens, bits, 0, sym);
    }
  }

  lemma DecodeWritten(lens: seq<nat>, sym: nat, rest: seq<bool>)
    requires Prefixable(lens) && sym < |lens| && lens[sym] >= 1
    ensures DecodeSym(lens, CodeBits(lens, sym) + rest) == sym
  {
    DecodeIffNext(lens, CodeBits(lens, sym) + rest, sym);
  }

  /** Symbols of one length are numbered without gaps. */
  lemma {:induction false} NthSymbol(lens: seq<nat>, n: nat, l: nat, r: nat) returns (sym: nat)
    requires n <= |lens| && r < CountUpTo(lens, n, l)
    ensures sym < n && lens[sym] == l && CountUpTo(lens, sym, l) == r
  {
    if lens[n - 1] == l && CountUpTo(lens, n - 1, l) == r {
      sym := n - 1;
    } else {
      sym := NthSymbol(lens, n - 1, l, r);
    }
  }

  lemma CodeAtLevel(lens: seq<nat>, bits: seq<bool>, l: nat) returns (sym: nat)
    requires 1 <= l <= |bits| && First(lens, l) <= MsbVal(bits[..l]) < Filled(lens, l)
    ensures Next(lens, bits, sym)
  {
    sym := NthSymbol(lens, |lens|, l, MsbVal(bits[..l]) - First(lens, l));
    MsbBitsVal(bits[..l]);
    assert CodeBits(lens, sym) == bits[..l];
  }

  lemma OneMoreBit(bits: seq<bool>, l: nat)
    requires l < |bits|
    ensures MsbVal(bits[..l + 1]) == 2 * MsbVal(bits[..l]) + (if bits[l] then 1 else 0)
  {
    assert bits[..l + 1][..l] == bits[..l];
  }

  /** In a full code every sufficiently long bit string begins with a code word. */
  lemma {:induction false} FullCodeDecodes(lens: seq<nat>, bits: seq<bool>, l: nat) returns (sym: nat)
    requires Full(lens) && 1 <= l <= MAX_CODE_SIZE && |bits| >= MAX_CODE_SIZE
    requires MsbVal(bits[..l]) >= First(lens, l)
    ensures Next(lens, bits, sym)
    decreases MAX_CODE_SIZE - l
  {
    if MsbVal(bits[..l]) < Filled(lens, l) {
      sym := CodeAtLevel(lens, bits, l);
    } else {
      OneMoreBit(bits, l);
      assert First(lens, l + 1) == 2 * Filled(lens, l);
      sym := FullCodeDecodes(lens, bits, l + 1);
    }
  }

  lemma FullCodeIsTotal(lens: seq<nat>, bits: seq<bool>)
    requires Full(lens) && |bits| >= MAX_CODE_SIZE
    ensures DecodeSym(lens, bits) < |lens|
  {
    var sym := FullCodeDecodes(lens, bits, 1);
    DecodeIffNext(lens, bits, sym);
  }

  // ---- Lengths that agree up to trailing zeros give the same code

  lemma {:induction false} CountOfPrefix(a: seq<nat>, b: seq<nat>, n: nat, l: nat)
    requires n <= |a| && n <= |b| && forall i :: 0 <= i < n ==> a[i] == b[i]
    ensures CountUpTo(a, n, l) == CountUpTo(b, n, l)
  {
    if n > 0 {
      CountOfPrefix(a, b, n - 1, l);
    }
  }

  lemma {:induction false} CountOfZeros(lens: seq<nat>, k: nat, n: nat, l: nat)
    requires k <= n <= |lens| && l >= 1 && forall i :: k <= i < n ==> lens[i] == 0
    ensures CountUpTo(lens, n, l) == CountUpTo(lens, k, l)
  {
    if k < n {
      CountOfZeros(lens, k, n - 1, l);
    }
  }

  lemma CountTrim(lens: seq<nat>, k: nat, l: nat)
    requires k <= |lens| && l >= 1 && forall i :: k <= i < |lens| ==> lens[i] == 0
    ensures Count(lens[..k], l) == Count(lens, l)
  {
    CountOfPrefix(lens[..k], lens, k, l);
    CountOfZeros(lens, k, |lens|, l);
  }

  lemma {:induction false} FirstTrim(lens: seq<nat>, k: nat, l: nat)
    requires k <= |lens| && forall i :: k <= i < |lens| ==> lens[i] == 0
    ensures First(lens[..k], l) == First(lens, l)
  {
    if l > 1 {
      FirstTrim(lens, k, l - 1);
      CountTrim(lens, k, l - 1);
    }
  }

  lemma TrimmedCode(lens: seq<nat>, k: nat)
    requires k <= |lens| && forall i :: k <= i < |lens| ==> lens[i] == 0
    ensures Prefixable(lens) ==> Prefixable(lens[..k])
    ensures Full(lens) ==> Full(lens[..k])
    ensures forall sym :: 0 <= sym < k && lens[sym] >= 1 ==> CodeBits(lens[..k], sym) == CodeBits(lens, sym)
  {
    FirstTrim(lens, k, MAX_CODE_SIZE);
    CountTrim(lens, k, MAX_CODE_SIZE);
    forall sym | 0 <= sym < k && lens[sym] >= 1
      ensures CodeBits(lens[..k], sym) == CodeBits(lens, sym)
    {
      FirstTrim(lens, k, lens[sym]);
      CountOfPrefix(lens[..k], lens, sym, lens[sym]);
    }
  }

  // ---- The code words as stored: bit-reversed

  /** Turns a code word around so that it can be written least significant bit first. */
  method ReverseCode(code: nat, size: nat) returns (rev: nat)
    requires code < Pow2(size)
    ensures rev < Pow2(size) && ToBits(rev, size) == MsbBits(code, size)
  {
    rev := 0;
    var c: nat, l: nat := code, size;
    while l > 0
      invariant l <= size && rev < Pow2(size - l)
      invariant MsbBits(code, size) == MsbBits(c, l) + ToBits(rev, size - l)
    {
      ghost var k := size - l;
      assert ToBits(2 * rev + c % 2, k + 1) == [c % 2 == 1] + ToBits(rev, k);
      assert MsbBits(c / 2, l - 1) + ([c % 2 == 1] + ToBits(rev, k))
          == (MsbBits(c / 2, l - 1) + [c % 2 == 1]) + ToBits(rev, k);
      rev := 2 * rev + c % 2;
      c := c / 2;
      l := l - 1;
    }
  }

  /** Writing the stored form of a code word writes the code word. */
  lemma ReversedUnique(a: nat, b: nat, size: nat)
    requires a < Pow2(size) && b < Pow2(size) && ToBits(a, size) == ToBits(b, size)
    ensures a == b
  {
    FromToBits(a, size);
    FromToBits(b, size);
  }
}
