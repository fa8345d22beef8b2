/**
 Bit strings. A DEFLATE stream is a sequence of bytes read from the least
 significant bit of each byte upwards; Huffman codes alone are packed starting
 with their most significant bit (RFC 1951, section 3.1.1).
 */
module Bits {

  type Byte = x: nat | x < 256

  // Two conventions keep proofs about large states short. A predicate written as `(...) == true`
  // is not split into its parts where it is to be proved, only its name is carried along.
  // Facts about `x` stated for every `k` with `Shown(x, k)` stay closed until `Shown(x, 0)` is mentioned.

  /** Mentioned to open closed facts about `x`. */
  ghost predicate Shown<T>(x: T, k: nat) {
    true
  }

  function Pow2(n: nat): (r: nat)
    ensures r >= 1
  {
    if n == 0 then 1 else 2 * Pow2(n - 1)
  }

  lemma {:induction false} Pow2Add(m: nat, n: nat)
    ensures Pow2(m + n) == Pow2(m) * Pow2(n)
  {
    if m != 0 {
      Pow2Add(m - 1, n);
      assert (m - 1) + n == m + n - 1;
      assert 2 * (Pow2(m - 1) * Pow2(n)) == (2 * Pow2(m - 1)) * Pow2(n);
    }
  }

  lemma {:induction false} Pow2Mono(m: nat, n: nat)
    requires m <= n
    ensures Pow2(m) <= Pow2(n)
  {
    if m < n {
      Pow2Mono(m, n - 1);
    }
  }

  lemma Pow2Values()
    ensures Pow2(3) == 8 && Pow2(4) == 16 && Pow2(5) == 32 && Pow2(7) == 128
    ensures Pow2(8) == 256 && Pow2(10) == 1024 && Pow2(15) == 32768 && Pow2(16) == 65536
  {
    assert Pow2(3) == 8;
    assert Pow2(4) == 16;
    assert Pow2(5) == 32;
    assert Pow2(6) == 64;
    assert Pow2(7) == 128;
    assert Pow2(8) == 256;
    assert Pow2(9) == 512;
    assert Pow2(10) == 1024;
    assert Pow2(11) == 2048;
    assert Pow2(12) == 4096;
    assert Pow2(13) == 8192;
    assert Pow2(14) == 16384;
  }

  lemma Regroup<T>(a: seq<T>, b: seq<T>, c: seq<T>)
    ensures a + b + c == a + (b + c)
  {
  }

  lemma MoveOne<T>(a: seq<T>, b: seq<T>)
    requires b != []
    ensures a + [b[0]] + b[1..] == a + b
  {
  }

  /** The low `n` bits of `v`, least significant first. */
  function ToBits(v: nat, n: nat): (s: seq<bool>)
    ensures |s| == n
    decreases n, v
  {
    if n == 0 then [] else [v % 2 == 1] + ToBits(v / 2, n - 1)
  }

  /** The number whose binary digits, least significant first, are `s`. */
  function FromBits(s: seq<bool>): (v: nat)
    ensures v < Pow2(|s|)
  {
    if s == [] then 0 else (if s[0] then 1 else 0) + 2 * FromBits(s[1..])
  }

  lemma {:induction false} FromToBits(v: nat, n: nat)
    ensures FromBits(ToBits(v, n)) == v % Pow2(n)
    ensures v < Pow2(n) ==> FromBits(ToBits(v, n)) == v
    decreases n
  {
    if n != 0 {
      FromToBits(v / 2, n - 1);
      var s := ToBits(v, n);
      assert s[1..] == ToBits(v / 2, n - 1);
      ModHalf(v, Pow2(n - 1));
    }
    if v < Pow2(n) {
      ModSmall(v, Pow2(n));
    }
  }

  lemma ModSmall(v: nat, m: nat)
    requires v < m
    ensures v % m == v && v / m == 0
  {
  }

  lemma ModHalf(v: nat, m: nat)
    requires m > 0
    ensures v % (2 * m) == v % 2 + 2 * (v / 2 % m)
  {
    var h := v / 2;
    var q, r := h / m, h % m;
    assert h == q * m + r;
    assert v == (2 * m) * q + (v % 2 + 2 * r) by {
      assert v == 2 * h + v % 2;
      assert 2 * (q * m) == (2 * m) * q;
    }
    DivModUnique(v, 2 * m, q, v % 2 + 2 * r);
  }

  lemma MultipleInRange(m: int, d: int)
    requires -m < m * d < m
    ensures d == 0
  {
    if d >= 1 {
      MulMono(m, 1, d);
    } else if d <= -1 {
      MulMono(m, d, -1);
    }
  }

  lemma DivModParts(v: nat, m: nat)
    requires m > 0
    ensures 0 <= v % m < m && v / m >= 0 && v % m + (v / m) * m == v
  {
    DivNonNeg(v, m);
  }

  lemma DivNonNeg(v: nat, m: nat)
    requires m > 0
    ensures v / m >= 0
  {
  }

  lemma MulMono(m: nat, a: int, b: int)
    requires a <= b
    ensures m * a <= m * b
  {
  }

  lemma MulDouble(x: int, y: int)
    ensures 2 * (x * y) == x * (2 * y) == (2 * x) * y
  {
  }

  lemma DivModUnique(a: int, m: nat, q: int, r: nat)
    requires r < m && a == m * q + r
    ensures a / m == q && a % m == r
  {
    var q', r' := a / m, a % m;
    assert a == m * q' + r';
    assert m * (q - q') == r' - r by {
      assert m * (q - q') == m * q - m * q';
    }
    MultipleInRange(m, q - q');
  }

  lemma {:induction false} ToFromBits(s: seq<bool>)
    ensures ToBits(FromBits(s), |s|) == s
  {
    if s != [] {
      ToFromBits(s[1..]);
      var v := FromBits(s);
      assert v / 2 == FromBits(s[1..]) && v % 2 == (if s[0] then 1 else 0);
      assert s == [s[0]] + s[1..];
    }
  }

  /** Two fields written one above the other read back one after the other. */
  lemma {:induction false} ToBitsConcat(a: nat, m: nat, b: nat, n: nat)
    requires a < Pow2(m)
    ensures ToBits(a + b * Pow2(m), m + n) == ToBits(a, m) + ToBits(b, n)
    decreases m
  {
    if m == 0 {
      assert b * Pow2(0) == b;
    } else {
      var v := a + b * Pow2(m);
      var k := b * Pow2(m - 1);
      assert b * Pow2(m) == 2 * k by {
        assert b * (2 * Pow2(m - 1)) == 2 * (b * Pow2(m - 1));
      }
      assert v % 2 == a % 2 && v / 2 == a / 2 + k;
      ToBitsConcat(a / 2, m - 1, b, n);
      assert m + n - 1 == (m - 1) + n;
      assert ToBits(v, m + n) == [v % 2 == 1] + ToBits(v / 2, m + n - 1);
      assert [v % 2 == 1] + (ToBits(a / 2, m - 1) + ToBits(b, n))
          == ([v % 2 == 1] + ToBits(a / 2, m - 1)) + ToBits(b, n);
    }
  }

  /** `v & ((1 << n) - 1)`. */
  function Low(v: nat, n: nat): (r: nat)
    ensures r < Pow2(n)
  {
    DivModParts(v, Pow2(n));
    v % Pow2(n)
  }

  /** `v >> n`. */
  function High(v: nat, n: nat): (r: nat)
  {
    DivModParts(v, Pow2(n));
    v / Pow2(n)
  }

  /** `v << n`. */
  function Shl(v: nat, n: nat): (r: nat) {
    v * Pow2(n)
  }

  lemma LowHigh(v: nat, n: nat)
    ensures Low(v, n) + High(v, n) * Pow2(n) == v
  {
    DivModParts(v, Pow2(n));
  }

  /** Masking reads the low bits of a buffer and shifting drops them. */
  lemma ToBitsSplit(v: nat, m: nat, n: nat)
    ensures ToBits(v, m + n) == ToBits(Low(v, m), m) + ToBits(High(v, m), n)
  {
    LowHigh(v, m);
    ToBitsConcat(Low(v, m), m, High(v, m), n);
  }

  /** A field above another one: the value and the bits of both together. */
  lemma ShlFits(b: nat, m: nat, v: nat, n: nat)
    requires b < Pow2(m) && v < Pow2(n)
    ensures b + Shl(v, m) < Pow2(m + n) && ToBits(b + Shl(v, m), m + n) == ToBits(b, m) + ToBits(v, n)
  {
    ToBitsConcat(b, m, v, n);
    Pow2Add(m, n);
    MulMono(Pow2(m), v + 1, Pow2(n));
    assert Pow2(m) * (v + 1) == v * Pow2(m) + Pow2(m);
  }

  /** Taking a field of `m` bits off a value of `m + n` bits. */
  lemma SplitField(v: nat, m: nat, n: nat)
    requires v < Pow2(m + n)
    ensures ToBits(v, m + n) == ToBits(Low(v, m), m) + ToBits(High(v, m), n) && High(v, m) < Pow2(n)
  {
    ToBitsSplit(v, m, n);
    Pow2Add(m, n);
    LowHigh(v, m);
    assert High(v, m) * Pow2(m) == Pow2(m) * High(v, m);
    if High(v, m) >= Pow2(n) {
      MulMono(Pow2(m), Pow2(n), High(v, m));
    }
  }

  lemma ToBitsLow(v: nat, m: nat)
    ensures ToBits(v, m) == ToBits(Low(v, m), m)
  {
    ToBitsSplit(v, m, 0);
    assert ToBits(v, m + 0) == ToBits(Low(v, m), m) + [];
  }

  /** A byte string as the bit string a DEFLATE reader sees. */
  function BytesToBits(bs: seq<Byte>): (s: seq<bool>)
    ensures |s| == 8 * |bs|
  {
    if bs == [] then [] else ToBits(bs[0], 8) + BytesToBits(bs[1..])
  }

  lemma {:induction false} BytesToBitsConcat(a: seq<Byte>, b: seq<Byte>)
    ensures BytesToBits(a + b) == BytesToBits(a) + BytesToBits(b)
  {
    if a == [] {
      assert a + b == b;
      assert BytesToBits(a) + BytesToBits(b) == BytesToBits(b);
    } else {
      assert (a + b)[1..] == a[1..] + b;
      BytesToBitsConcat(a[1..], b);
      assert ToBits(a[0], 8) + (BytesToBits(a[1..]) + BytesToBits(b))
          == (ToBits(a[0], 8) + BytesToBits(a[1..])) + BytesToBits(b);
    }
  }

  lemma BytesToBitsSnoc(a: seq<Byte>, b: Byte)
    ensures BytesToBits(a + [b]) == BytesToBits(a) + ToBits(b, 8)
  {
    BytesToBitsConcat(a, [b]);
    assert BytesToBits([b]) == ToBits(b, 8) + BytesToBits([]);
  }

  /** Different byte strings are different bit strings. */
  lemma {:induction false} BytesToBitsInjective(a: seq<Byte>, b: seq<Byte>)
    requires BytesToBits(a) == BytesToBits(b)
    ensures a == b
  {
    if a != [] {
      assert |a| == |b|;
      assert ToBits(a[0], 8) == BytesToBits(a)[..8];
      assert ToBits(b[0], 8) == BytesToBits(b)[..8];
      Pow2Values();
      FromToBits(a[0], 8);
      FromToBits(b[0], 8);
      assert BytesToBits(a[1..]) == BytesToBits(a)[8..];
      assert BytesToBits(b[1..]) == BytesToBits(b)[8..];
      BytesToBitsInjective(a[1..], b[1..]);
      assert a == [a[0]] + a[1..] && b == [b[0]] + b[1..];
    }
  }

  /** `c` in `n` binary digits, most significant first. */
  function MsbBits(c: nat, n: nat): (s: seq<bool>)
    ensures |s| == n
    decreases n, c
  {
    if n == 0 then [] else MsbBits(c / 2, n - 1) + [c % 2 == 1]
  }

  /** The number whose binary digits, most significant first, are `s`. */
  function MsbVal(s: seq<bool>): (c: nat)
    ensures c < Pow2(|s|)
  {
    if s == [] then 0 else 2 * MsbVal(s[..|s| - 1]) + (if s[|s| - 1] then 1 else 0)
  }

  lemma {:induction false} MsbValBits(c: nat, n: nat)
    requires c < Pow2(n)
    ensures MsbVal(MsbBits(c, n)) == c
    decreases n
  {
    if n != 0 {
      MsbValBits(c / 2, n - 1);
      var s := MsbBits(c, n);
      assert s[..|s| - 1] == MsbBits(c / 2, n - 1);
    }
  }

  lemma {:induction false} MsbBitsVal(s: seq<bool>)
    ensures MsbBits(MsbVal(s), |s|) == s
  {
    if s != [] {
      MsbBitsVal(s[..|s| - 1]);
      var c := MsbVal(s);
      assert c / 2 == MsbVal(s[..|s| - 1]) && (c % 2 == 1) == s[|s| - 1];
      assert s == s[..|s| - 1] + [s[|s| - 1]];
    }
  }

  lemma {:induction false} MsbValConcat(a: seq<bool>, b: seq<bool>)
    ensures MsbVal(a + b) == MsbVal(a) * Pow2(|b|) + MsbVal(b)
    decreases |b|
  {
    if b == [] {
      assert a + b == a;
    } else {
      var b0 := b[..|b| - 1];
      MsbValConcat(a, b0);
      assert (a + b)[..|a + b| - 1] == a + b0;
      var p := Pow2(|b0|);
      assert Pow2(|b|) == 2 * p;
      MulDouble(MsbVal(a), p);
    }
  }

  /** The leading bits of a number, most significant first. */
  lemma MsbValTake(s: seq<bool>, n: nat)
    requires n <= |s|
    ensures MsbVal(s[..n]) * Pow2(|s| - n) <= MsbVal(s) < MsbVal(s[..n]) * Pow2(|s| - n) + Pow2(|s| - n)
  {
    assert s == s[..n] + s[n..];
    MsbValConcat(s[..n], s[n..]);
  }
}
