/**
 The compressor's view of its input: a ring of the last 32 KB, whose first bytes
 are mirrored behind its end, the lookahead, hash chains, and the search for
 matches.
 */
module Window {
  import opened Bits
  import opened MinRedundancy
  import opened Tokens

  const DICT_SIZE := 32768
  /** How many bytes are mirrored: TDEFL_MAX_MATCH_LEN - 1. */
  const MIRROR := 257
  const HASH_SIZE := 32768

  /** One step of the rolling hash, on machine words. */
  function StepWord(h: bv32, c: bv32): bv32 {
    ((h << 5) ^ c) & 0x7FFF
  }

  lemma StepIsSmall(h: bv32, c: bv32)
    ensures StepWord(h, c) as nat < HASH_SIZE
  {
  }

  function HashStep(h: nat, c: nat): (r: nat)
    requires h < HASH_SIZE && c < 256
    ensures r < HASH_SIZE
  {
    StepIsSmall(h as bv32, c as bv32);
    StepWord(h as bv32, c as bv32) as nat
  }

  /** The hash of three bytes. */
  function Hash3(a: Byte, b: Byte, c: Byte): (h: nat)
    ensures h < HASH_SIZE
  {
    HashStep(HashStep(a, b), c)
  }

  lemma WordBack(x: bv32)
    ensures (x as nat) as bv32 == x
  {
  }

  lemma StepBack(h: nat, c: nat)
    requires h < HASH_SIZE && c < 256
    ensures HashStep(h, c) as bv32 == StepWord(h as bv32, c as bv32)
  {
    WordBack(StepWord(h as bv32, c as bv32));
  }

  /** Three steps shift out what was there before. */
  lemma StepsForget(a: bv32, b: bv32, c: bv32, d: bv32)
    ensures StepWord(StepWord(StepWord(a, b), c), d) == StepWord(StepWord(b, c), d)
  {
  }

  /** So the rolling hash is that of the last three bytes. */
  lemma Rolls(a: Byte, b: Byte, c: Byte, d: Byte)
    ensures HashStep(Hash3(a, b, c), d) == Hash3(b, c, d)
  {
    StepBack(a, b);
    StepBack(HashStep(a, b), c);
    StepBack(b, c);
    StepsForget(a as bv32, b as bv32, c as bv32, d as bv32);
  }

  /** With one more byte, `h` becomes the hash of `a`, `b` and that byte; kept closed. */
  ghost predicate Rolling(h: nat, a: Byte, b: Byte) {
    h < HASH_SIZE && forall c: Byte {:trigger Shown(h, c)} :: Shown(h, c) ==> HashStep(h, c) == Hash3(a, b, c)
  }

  lemma RollStart(a: Byte, b: Byte)
    ensures Rolling(HashStep(a, b), a, b)
  {
  }

  lemma RollOn(h: nat, a: Byte, b: Byte, c: Byte)
    requires Rolling(h, a, b)
    ensures HashStep(h, c) == Hash3(a, b, c) && Rolling(HashStep(h, c), b, c)
  {
    assert Shown(h, c);
    forall d: Byte ensures HashStep(Hash3(a, b, c), d) == Hash3(b, c, d) {
      Rolls(a, b, c, d);
    }
  }

  function Min(a: nat, b: nat): nat {
    if a < b then a else b
  }

  // ---- Hash chains

  /** The hash at every position that has two more bytes behind it. */
  ghost function Hashes(input: seq<Byte>): (hs: seq<nat>)
    ensures |hs| == if |input| < 2 then 0 else |input| - 2
  {
    var n := |input|;
    if n < 3 then [] else Hashes(input[..n - 1]) + [Hash3(input[n - 3], input[n - 2], input[n - 1])]
  }

  lemma OneMoreHash(input: seq<Byte>, c: Byte)
    ensures Hashes(input + [c]) ==
            if |input| < 2 then [] else Hashes(input) + [Hash3(input[|input| - 2], input[|input| - 1], c)]
  {
    assert (input + [c])[..|input|] == input;
  }

  lemma {:induction false} HashIs(input: seq<Byte>, q: nat)
    requires q + 2 < |input|
    ensures Hashes(input)[q] == Hash3(input[q], input[q + 1], input[q + 2])
    decreases |input|
  {
    var n := |input|;
    if q < n - 3 {
      HashIs(input[..n - 1], q);
    }
  }

  /** The latest position from `base` on and before `n` that has hash `h`; -1 if there is none. */
  ghost function Latest(hs: seq<nat>, base: nat, h: nat, n: nat): (q: int)
    requires n <= base || n <= |hs|
    ensures q == -1 || (base <= q < n && hs[q] == h)
    ensures forall r :: base <= r < n && q < r ==> hs[r] != h
  {
    if n <= base then -1 else if hs[n - 1] == h then n - 1 else Latest(hs, base, h, n - 1)
  }

  /** How a position is kept in `hash` and `next`. */
  function Entry(q: int): U16 {
    if q < 0 then 0 else q % 0x1_0000
  }

  /** `hash` has the latest of the positions before `n` with each hash. */
  ghost predicate HashesHold(hash: seq<U16>, hs: seq<nat>, base: nat, n: nat) {
    && (n <= base || n <= |hs|) && |hash| == HASH_SIZE
    && forall h :: 0 <= h < HASH_SIZE ==> hash[h] == Entry(Latest(hs, base, h, n))
  }

  /** The entry of position `q` is the latest earlier position with the same hash. */
  ghost predicate LinkHolds(next: seq<U16>, hs: seq<nat>, base: nat, q: nat) {
    |next| == DICT_SIZE && q < |hs| && next[q % DICT_SIZE] == Entry(Latest(hs, base, hs[q], q))
  }

  ghost predicate NextsHold(next: seq<U16>, hs: seq<nat>, base: nat, n: nat) {
    && |next| == DICT_SIZE
    && forall q {:trigger LinkHolds(next, hs, base, q)} ::
         base <= q < n <= q + DICT_SIZE ==> LinkHolds(next, hs, base, q)
  }

  /** Both arrays describe the positions from `base` up to `n`. */
  ghost predicate ChainsHold(next: seq<U16>, hash: seq<U16>, hs: seq<nat>, base: nat, n: nat) {
    (HashesHold(hash, hs, base, n) && NextsHold(next, hs, base, n)) == true
  }

  lemma {:induction false} LatestStays(hs: seq<nat>, hs': seq<nat>, base: nat, h: nat, n: nat)
    requires hs <= hs' && (n <= base || n <= |hs|)
    ensures Latest(hs', base, h, n) == Latest(hs, base, h, n)
    decreases n
  {
    if n > base {
      LatestStays(hs, hs', base, h, n - 1);
    }
  }

  /** More input does not change what has been entered. */
  lemma ChainsStay(next: seq<U16>, hash: seq<U16>, hs: seq<nat>, hs': seq<nat>, base: nat, n: nat)
    requires ChainsHold(next, hash, hs, base, n) && hs <= hs'
    ensures ChainsHold(next, hash, hs', base, n)
  {
    forall h | 0 <= h < HASH_SIZE ensures hash[h] == Entry(Latest(hs', base, h, n)) {
      LatestStays(hs, hs', base, h, n);
    }
    forall q | base <= q < n <= q + DICT_SIZE ensures LinkHolds(next, hs', base, q) {
      assert LinkHolds(next, hs, base, q);
      LatestStays(hs, hs', base, hs[q], q);
    }
  }

  lemma HashEntered(hash: seq<U16>, hs: seq<nat>, base: nat, n: nat)
    requires HashesHold(hash, hs, base, n) && base <= n < |hs| && hs[n] < HASH_SIZE
    ensures HashesHold(hash[hs[n] := n % 0x1_0000], hs, base, n + 1)
  {
  }

  lemma NextEntered(next: seq<U16>, hash: seq<U16>, hs: seq<nat>, base: nat, n: nat)
    requires HashesHold(hash, hs, base, n) && NextsHold(next, hs, base, n) && base <= n < |hs| && hs[n] < HASH_SIZE
    ensures NextsHold(next[n % DICT_SIZE := hash[hs[n]]], hs, base, n + 1)
  {
    var next' := next[n % DICT_SIZE := hash[hs[n]]];
    forall q | base <= q < n + 1 <= q + DICT_SIZE ensures LinkHolds(next', hs, base, q) {
      if q < n {
        assert LinkHolds(next, hs, base, q);
        DifferentSlots(q, n);
      }
    }
  }

  /** Entering position `n` keeps both arrays as they should be. */
  lemma EnteredNext(next: seq<U16>, hash: seq<U16>, hs: seq<nat>, base: nat, n: nat)
    requires ChainsHold(next, hash, hs, base, n) && base <= n < |hs| && hs[n] < HASH_SIZE
    ensures ChainsHold(next[n % DICT_SIZE := hash[hs[n]]], hash[hs[n] := n % 0x1_0000], hs, base, n + 1)
  {
    HashEntered(hash, hs, base, n);
    NextEntered(next, hash, hs, base, n);
  }

  // ---- What a search sees of the chains

  /** A chain ends at an entry of 0, at one that is too far back, and at one that is no distance away. */
  predicate ChainEnds(entry: U16, lp: nat, maxDist: nat) {
    entry == 0 || (lp - entry) % 0x1_0000 > maxDist || (lp - entry) % 0x1_0000 == 0
  }

  /** The distances of the first `k` candidates for position `lp` on the chain from `slot` on. */
  ghost function Candidates(next: seq<U16>, lp: nat, maxDist: nat, slot: nat, k: nat): (ds: seq<nat>)
    requires |next| == DICT_SIZE && slot < DICT_SIZE
    ensures |ds| <= k && forall i :: 0 <= i < |ds| ==> 1 <= ds[i] <= maxDist
    decreases k
  {
    if k == 0 || ChainEnds(next[slot], lp, maxDist) then []
    else [(lp - next[slot]) % 0x1_0000] + Candidates(next, lp, maxDist, next[slot] % DICT_SIZE, k - 1)
  }

  /** The slot behind `v` steps. */
  ghost function SlotAfter(next: seq<U16>, slot: nat, v: nat): (s: nat)
    requires |next| == DICT_SIZE && slot < DICT_SIZE
    ensures s < DICT_SIZE
    decreases v
  {
    if v == 0 then slot else SlotAfter(next, next[slot] % DICT_SIZE, v - 1)
  }

  lemma {:induction false} CandidatesGrow(next: seq<U16>, lp: nat, maxDist: nat, slot: nat, k: nat, m: nat)
    requires |next| == DICT_SIZE && slot < DICT_SIZE && k <= m
    ensures Candidates(next, lp, maxDist, slot, k) <= Candidates(next, lp, maxDist, slot, m)
    decreases k
  {
    if k > 0 && !ChainEnds(next[slot], lp, maxDist) {
      CandidatesGrow(next, lp, maxDist, next[slot] % DICT_SIZE, k - 1, m - 1);
    }
  }

  /** Bytes that repeat have the same hash. */
  lemma SameHash(input: seq<Byte>, p: nat, len: nat, dist: nat)
    requires Repeats(input, p, len, dist) && len >= MIN_MATCH
    ensures p < |Hashes(input)| && Hashes(input)[p] == Hashes(input)[p - dist]
  {
    RepeatsAt(input, p, len, dist, p);
    RepeatsAt(input, p, len, dist, p + 1);
    RepeatsAt(input, p, len, dist, p + 2);
    HashIs(input, p);
    HashIs(input, p - dist);
  }

  /** A position whose entry reads as the end hides itself and everything before it. */
  lemma ChainCut(next: seq<U16>, hs: seq<nat>, base: nat, n: nat, lp: nat, maxDist: nat, p: nat, k: nat)
    requires NextsHold(next, hs, base, n) && base <= p < n <= |hs| && n <= p + DICT_SIZE
    requires Latest(hs, base, hs[p], p) % 0x1_0000 == 0
    ensures Candidates(next, lp, maxDist, p % DICT_SIZE, k) == []
  {
    assert LinkHolds(next, hs, base, p);
  }

  /** One step further along the chain. */
  lemma {:induction false} NextOnChain(next: seq<U16>, lp: nat, maxDist: nat, slot: nat, k: nat, v: nat)
    requires |next| == DICT_SIZE && slot < DICT_SIZE
    requires v < k && v <= |Candidates(next, lp, maxDist, slot, k)|
    ensures var cs, s := Candidates(next, lp, maxDist, slot, k), SlotAfter(next, slot, v);
            && (if ChainEnds(next[s], lp, maxDist) then |cs| == v
                else |cs| > v && cs[v] == (lp - next[s]) % 0x1_0000)
            && SlotAfter(next, slot, v + 1) == next[s] % DICT_SIZE
    decreases v
  {
    if v > 0 {
      NextOnChain(next, lp, maxDist, next[slot] % DICT_SIZE, k - 1, v - 1);
    }
  }

  /** How many positions from `q` on and before `p` have hash `h`. */
  ghost function Occurrences(hs: seq<nat>, h: nat, q: nat, p: nat): (n: nat)
    requires p <= q || p <= |hs|
  {
    if p <= q then 0 else Occurrences(hs, h, q, p - 1) + (if hs[p - 1] == h then 1 else 0)
  }

  lemma {:induction false} OccurrencesTo(hs: seq<nat>, h: nat, q: nat, r: nat, p: nat)
    requires q <= r < p <= |hs| && hs[r] == h && forall x :: r < x < p ==> hs[x] != h
    ensures Occurrences(hs, h, q, p) == Occurrences(hs, h, q, r) + 1
    decreases p
  {
    if r < p - 1 {
      OccurrencesTo(hs, h, q, r, p - 1);
    }
  }

  lemma EntryDistance(lp: nat, r: nat)
    requires r < lp <= r + DICT_SIZE && r % 0x1_0000 != 0
    ensures (lp - Entry(r)) % 0x1_0000 == lp - r && Entry(r) % DICT_SIZE == r % DICT_SIZE
  {
    var q, e := r / 0x1_0000, r % 0x1_0000;
    assert lp - e == 0x1_0000 * q + (lp - r);
    DivModUnique(lp - e, 0x1_0000, q, lp - r);
    SameSlot(r, e, 2 * q);
  }

  /** Positions with the hash of `q` whose entries do not read as the end of a chain. */
  ghost predicate Uncut(hs: seq<nat>, q: nat, p: nat)
    requires q < p <= |hs|
  {
    (forall r :: q <= r < p && hs[r] == hs[q] ==> r % 0x1_0000 != 0) == true
  }

  /** Every earlier position with the same hash that is within reach is on the chain, unless the chain is cut. */
  lemma {:induction false} OnTheChain(next: seq<U16>, hs: seq<nat>, base: nat, n: nat, lp: nat, maxDist: nat, p: nat,
                                      q: nat, k: nat)
    requires NextsHold(next, hs, base, n) && base <= q < p <= lp && p < n <= |hs| && n <= q + DICT_SIZE
    requires lp - q <= maxDist <= DICT_SIZE && hs[p] == hs[q] && Uncut(hs, q, p)
    requires Occurrences(hs, hs[q], q, p) <= k
    ensures lp - q in Candidates(next, lp, maxDist, p % DICT_SIZE, k)
    decreases p
  {
    assert LinkHolds(next, hs, base, p);
    var r := Latest(hs, base, hs[p], p);
    OccurrencesTo(hs, hs[q], q, r, p);
    EntryDistance(lp, r);
    if q < r {
      OnTheChain(next, hs, base, n, lp, maxDist, r, q, k - 1);
    }
  }

  // ---- The ring

  /** Position `p` of the input is in its slot, and mirrored if the slot is one of the first. */
  ghost predicate SlotHolds(dict: seq<Byte>, input: seq<Byte>, p: nat)
    requires |dict| == DICT_SIZE + MIRROR && p < |input|
  {
    && dict[p % DICT_SIZE] == input[p]
    && (p % DICT_SIZE < MIRROR ==> dict[DICT_SIZE + p % DICT_SIZE] == input[p])
  }

  ghost predicate Live(dict: seq<Byte>, input: seq<Byte>, lo: nat)
    requires |dict| == DICT_SIZE + MIRROR
  {
    forall p {:trigger SlotHolds(dict, input, p)} :: lo <= p < |input| ==> SlotHolds(dict, input, p)
  }

  /** Storing one more byte overwrites the byte 32 KB before it and no other. */
  lemma StoreKeepsLive(dict: seq<Byte>, dict': seq<Byte>, input: seq<Byte>, lo: nat, c: Byte)
    requires |dict| == |dict'| == DICT_SIZE + MIRROR && Live(dict, input, lo)
    requires var d := |input| % DICT_SIZE;
             && dict'[d] == c && (d < MIRROR ==> dict'[DICT_SIZE + d] == c)
             && forall i :: 0 <= i < |dict| && i != d && i != DICT_SIZE + d ==> dict'[i] == dict[i]
    ensures forall lo' :: lo <= lo' && |input| + 1 <= lo' + DICT_SIZE ==> Live(dict', input + [c], lo')
  {
    var n := |input|;
    forall lo' | lo <= lo' && n + 1 <= lo' + DICT_SIZE
      ensures Live(dict', input + [c], lo')
    {
      forall p | lo' <= p < n + 1 ensures SlotHolds(dict', input + [c], p) {
        if p < n {
          assert SlotHolds(dict, input, p);
          DifferentSlots(p, n);
        }
      }
    }
  }

  lemma DifferentSlots(p: nat, n: nat)
    requires p < n < p + DICT_SIZE
    ensures p % DICT_SIZE != n % DICT_SIZE
  {
  }

  /** Slots read past the end of the ring find the mirrored bytes. */
  lemma ReadAhead(dict: seq<Byte>, input: seq<Byte>, lo: nat, p: nat, k: nat)
    requires |dict| == DICT_SIZE + MIRROR && Live(dict, input, lo) && lo <= p + k < |input| && k <= MIRROR
    ensures p % DICT_SIZE + k < |dict| && dict[p % DICT_SIZE + k] == input[p + k]
  {
    assert SlotHolds(dict, input, p + k);
    SlotOf(p, k);
  }

  lemma SlotOf(p: nat, k: nat)
    requires k < DICT_SIZE
    ensures (p + k) % DICT_SIZE == if p % DICT_SIZE + k < DICT_SIZE then p % DICT_SIZE + k
        else p % DICT_SIZE + k - DICT_SIZE
  {
  }

  /** The candidate position that a chain entry stands for. */
  lemma CandidateSlot(lp: nat, next: nat, dist: nat)
    requires next < 0x1_0000 && dist == (lp - next) % 0x1_0000 && dist <= lp
    ensures next % DICT_SIZE == (lp - dist) % DICT_SIZE
  {
    var q := (lp - next) / 0x1_0000;
    assert lp - next == 0x1_0000 * q + dist;
    assert lp - dist == next + DICT_SIZE * (2 * q);
    SameSlot(lp - dist, next, 2 * q);
  }

  lemma SameSlot(a: nat, b: nat, q: int)
    requires a == b + DICT_SIZE * q
    ensures a % DICT_SIZE == b % DICT_SIZE
  {
    var k, r := b / DICT_SIZE, b % DICT_SIZE;
    DivModUnique(a, DICT_SIZE, k + q, r);
  }

  lemma OneFurther(input: seq<Byte>, src: seq<Byte>, at: nat, i: nat)
    requires at <= i < |src|
    ensures input + src[at..i + 1] == input + src[at..i] + [src[i]]
  {
  }

  /** `len` bytes from position `p` on repeat those `dist` before. */
  ghost predicate Repeats(input: seq<Byte>, p: nat, len: nat, dist: nat) {
    (p + len <= |input| && 1 <= dist <= p && input[p..p + len] == input[p - dist..p - dist + len]) == true
  }

  lemma RepeatsMore(input: seq<Byte>, p: nat, len: nat, dist: nat)
    requires Repeats(input, p, len, dist) && p + len < |input| && input[p + len] == input[p + len - dist]
    ensures Repeats(input, p, len + 1, dist)
  {
    assert input[p..p + (len + 1)] == input[p..p + len] + [input[p + len]];
    assert input[p - dist..p - dist + (len + 1)] == input[p - dist..p - dist + len] + [input[p + len - dist]];
  }

  /** A match at distance `dist` has at most `len` of `maxLen` bytes. */
  ghost predicate NoLonger(input: seq<Byte>, p: nat, dist: nat, maxLen: nat, len: nat) {
    forall l: nat :: l <= maxLen && Repeats(input, p, l, dist) ==> l <= len
  }

  /** Two bytes that differ end a match. */
  lemma RepeatEnds(input: seq<Byte>, p: nat, dist: nat, maxLen: nat, len: nat)
    requires 1 <= dist <= p && p + len < |input| && input[p + len] != input[p + len - dist]
    ensures NoLonger(input, p, dist, maxLen, len)
  {
    forall l: nat | l <= maxLen && Repeats(input, p, l, dist) ensures l <= len {
      if l > len {
        RepeatsAt(input, p, l, dist, p + len);
      }
    }
  }

  lemma RepeatsAt(input: seq<Byte>, p: nat, len: nat, dist: nat, i: nat)
    requires Repeats(input, p, len, dist) && p <= i < p + len
    ensures input[i] == input[i - dist]
  {
    assert input[p..p + len][i - p] == input[p - dist..p - dist + len][i - p];
  }

  class Window {
    const dict: array<Byte>
    const next: array<U16>
    const hash: array<U16>
    var lookaheadPos: nat
    var lookaheadSize: nat
    var dictSize: nat
    // Everything taken in so far.
    ghost var input: seq<Byte>
    // Where the input starts, or was forgotten last.
    ghost var base: nat

    ghost predicate Shape() {
      (&& dict.Length == DICT_SIZE + MIRROR && next.Length == DICT_SIZE && hash.Length == HASH_SIZE
       && dict as object != next as object && dict as object != hash as object && next != hash) == true
    }

    ghost predicate Valid()
      reads this, dict
    {
      (&& Shape() && |input| == lookaheadPos + lookaheadSize && lookaheadSize <= MAX_MATCH
       && dictSize <= lookaheadPos && dictSize + lookaheadSize <= DICT_SIZE
       && Live(dict[..], input, lookaheadPos - dictSize)) == true
    }

    /** The positions before this one have been entered into the chains, from `base` on. */
    ghost function Entered(): (n: nat)
      reads this
      ensures n <= base || n <= |Hashes(input)|
    {
      if |input| < base + 2 then base else |input| - 2
    }

    /** The chains are what they should be, and the dictionary goes back to `base` unless it is full; kept closed. */
    ghost predicate Chained()
      reads this, next, hash
    {
      forall k {:trigger Shown(this, k)} :: Shown(this, k) ==> ChainedUpTo(Entered())
    }

    ghost predicate ChainedUpTo(n: nat)
      reads this, next, hash
    {
      (&& Shape() && |input| == lookaheadPos + lookaheadSize && base + dictSize <= lookaheadPos
       && (base + dictSize == lookaheadPos || dictSize + MAX_MATCH >= DICT_SIZE)
       && ChainsHold(next[..], hash[..], Hashes(input), base, n)) == true
    }

    constructor (dict: array<Byte>, next: array<U16>, hash: array<U16>)
      requires dict.Length == DICT_SIZE + MIRROR && next.Length == DICT_SIZE && hash.Length == HASH_SIZE
      requires dict as object != next as object && dict as object != hash as object && next != hash
      requires forall i :: 0 <= i < HASH_SIZE ==> hash[i] == 0
      ensures Valid() && Chained() && input == [] && lookaheadPos == 0 && base == 0
      ensures this.dict == dict && this.next == next && this.hash == hash
    {
      this.dict, this.next, this.hash := dict, next, hash;
      lookaheadPos, lookaheadSize, dictSize, input, base := 0, 0, 0, [], 0;
    }

    // ---- Taking input in

    /** While input is taken in: the bytes that are still in the ring. */
    ghost predicate Filling()
      reads this, dict
    {
      (&& Shape() && |input| == lookaheadPos + lookaheadSize && lookaheadSize <= MAX_MATCH && dictSize <= lookaheadPos
       && dictSize <= DICT_SIZE
       && forall lo :: lookaheadPos - dictSize <= lo && |input| <= lo + DICT_SIZE ==> Live(dict[..], input, lo)) == true
    }

    /** Stores a byte of input. */
    method PutByte(c: Byte)
      requires Filling() && Chained() && lookaheadSize < MAX_MATCH
      modifies this`lookaheadSize, this`input, dict
      ensures Filling() && input == old(input) + [c] && lookaheadSize == old(lookaheadSize) + 1
      ensures ChainedUpTo(old(Entered()))
    {
      GrowChains(c);
      BaseIsBehind();
      ghost var nexts, hashes := next[..], hash[..];
      StoreByte(c);
      assert next[..] == nexts && hash[..] == hashes;
    }

    /** The byte in its slot, and its mirror. */
    method StoreByte(c: Byte)
      requires Filling() && lookaheadSize < MAX_MATCH
      modifies this`lookaheadSize, this`input, dict
      ensures Filling() && input == old(input) + [c] && lookaheadSize == old(lookaheadSize) + 1
    {
      ghost var before := dict[..];
      var dst := (lookaheadPos + lookaheadSize) % DICT_SIZE;
      dict[dst] := c;
      if dst < MAX_MATCH - 1 {
        dict[DICT_SIZE + dst] := c;
      }
      forall lo | lookaheadPos - dictSize <= lo && |input| + 1 <= lo + DICT_SIZE
        ensures Live(dict[..], input + [c], lo)
      {
        StoreKeepsLive(before, dict[..], input, lo, c);
      }
      input := input + [c];
      lookaheadSize := lookaheadSize + 1;
    }

    lemma GrowChains(c: Byte)
      requires Chained()
      ensures ChainsHold(next[..], hash[..], Hashes(input + [c]), base, Entered())
    {
      assert Shown(this, 0);
      OneMoreHash(input, c);
      ChainsStay(next[..], hash[..], Hashes(input), Hashes(input + [c]), base, Entered());
    }

    /** Enters position `insPos` into the chain of its hash. */
    method InsertHash(h: nat, insPos: nat)
      requires Filling() && base <= insPos && insPos + 3 == |input| && ChainedUpTo(insPos)
      requires h == Hashes(input)[insPos] < HASH_SIZE
      modifies next, hash
      ensures Filling() && Chained()
    {
      EnteredNext(next[..], hash[..], Hashes(input), base, insPos);
      next[insPos % DICT_SIZE] := hash[h];
      hash[h] := insPos % 0x1_0000;
    }

    /** With fewer than three bytes there is nothing to enter. */
    lemma NothingToEnter()
      requires ChainedUpTo(base) && |input| < base + 3
      ensures Chained()
    {
    }

    /** The bytes just before the end of the input are in the ring. */
    lemma LastByte(k: nat)
      requires Filling() && 1 <= k <= 2 && k <= lookaheadSize + dictSize
      ensures k <= |input| && dict[(|input| - k) % DICT_SIZE] == input[|input| - k]
    {
      assert Live(dict[..], input, |input| - k);
      assert SlotHolds(dict[..], input, |input| - k);
    }

    method FillFast(src: seq<Byte>, at: nat) returns (at': nat)
      requires Filling() && Chained() && at <= |src| && lookaheadSize + dictSize >= MIN_MATCH - 1
      modifies this`lookaheadSize, this`input, dict, next, hash
      ensures Filling() && Chained() && at' == at + Min(|src| - at, MAX_MATCH - old(lookaheadSize))
      ensures input == old(input) + src[at..at'] && lookaheadSize == old(lookaheadSize) + (at' - at)
    {
      var insPos: nat := lookaheadPos + lookaheadSize - 2;
      var h: nat := FirstHash(insPos);
      at' := at;
      var end := at + Min(|src| - at, MAX_MATCH - lookaheadSize);
      ghost var size0, input0 := lookaheadSize, input;
      assert src[at..at] == [];
      while at' != end
        invariant at <= at' <= end && Filling() && Chained() && InFastFill(h, insPos)
        invariant input == input0 + src[at..at'] && lookaheadSize == size0 + (at' - at)
      {
        OneFurther(input0, src, at, at');
        h := TakeFast(h, insPos, src[at']);
        insPos := insPos + 1;
        at' := at' + 1;
      }
    }

    /** `h` goes on from the last two bytes, which start at `insPos`. */
    ghost predicate InFastFill(h: nat, insPos: nat)
      reads this
    {
      (base + 2 <= |input| == insPos + 2 && Rolling(h, input[insPos], input[insPos + 1])) == true
    }

    /** The hash of the last two bytes. */
    method FirstHash(insPos: nat) returns (h: nat)
      requires Filling() && Chained() && lookaheadSize + dictSize >= MIN_MATCH - 1 && insPos + 2 == |input|
      ensures InFastFill(h, insPos)
    {
      LastByte(2);
      LastByte(1);
      BaseIsBehind();
      RollStart(input[insPos], input[insPos + 1]);
      h := HashStep(dict[insPos % DICT_SIZE], dict[(insPos + 1) % DICT_SIZE]);
    }

    lemma BaseIsBehind()
      requires Chained()
      ensures base + dictSize <= lookaheadPos && |input| == lookaheadPos + lookaheadSize
      ensures base + dictSize == lookaheadPos || dictSize + MAX_MATCH >= DICT_SIZE
    {
      assert Shown(this, 0);
    }

    /** One byte, and the position two before it. */
    method TakeFast(h: nat, insPos: nat, c: Byte) returns (h': nat)
      requires Filling() && Chained() && lookaheadSize < MAX_MATCH
      requires InFastFill(h, insPos)
      modifies this`lookaheadSize, this`input, dict, next, hash
      ensures Filling() && Chained() && input == old(input) + [c] && lookaheadSize == old(lookaheadSize) + 1
      ensures InFastFill(h', insPos + 1)
    {
      RollOn(h, input[insPos], input[insPos + 1], c);
      OneMoreHash(input, c);
      PutByte(c);
      h' := HashStep(h, c);
      InsertHash(h', insPos);
    }

    method FillSlow(src: seq<Byte>, at: nat) returns (at': nat)
      requires Filling() && Chained() && at <= |src| && lookaheadSize + dictSize < MIN_MATCH - 1
      modifies this`lookaheadSize, this`input, dict, next, hash
      ensures Filling() && Chained() && at' == at + Min(|src| - at, MAX_MATCH - old(lookaheadSize))
      ensures input == old(input) + src[at..at'] && lookaheadSize == old(lookaheadSize) + (at' - at)
    {
      at' := at;
      assert src[at..at] == [];
      while at' < |src| && lookaheadSize < MAX_MATCH
        invariant at <= at' <= |src| && Filling() && Chained()
        invariant input == old(input) + src[at..at'] && lookaheadSize == old(lookaheadSize) + (at' - at)
        decreases |src| - at'
      {
        assert src[at..at' + 1] == src[at..at'] + [src[at']];
        TakeSlow(src[at']);
        at' := at' + 1;
      }
    }

    /** One byte, and the position two before it if there is one in the dictionary. */
    method TakeSlow(c: Byte)
      requires Filling() && Chained() && lookaheadSize < MAX_MATCH && dictSize < 2
      modifies this`lookaheadSize, this`input, dict, next, hash
      ensures Filling() && Chained() && input == old(input) + [c] && lookaheadSize == old(lookaheadSize) + 1
    {
      BaseIsBehind();
      OneMoreHash(input, c);
      PutByte(c);
      if lookaheadSize + dictSize >= MIN_MATCH {
        var insPos: nat := lookaheadPos + (lookaheadSize - 1) - 2;
        EarlierBytes(insPos);
        var h := HashStep(HashStep(dict[insPos % DICT_SIZE], dict[(insPos + 1) % DICT_SIZE]), c);
        InsertHash(h, insPos);
      } else {
        NothingToEnter();
      }
    }

    lemma EarlierBytes(p: nat)
      requires Filling() && lookaheadPos - dictSize <= p && p + 3 == |input|
      ensures dict[p % DICT_SIZE] == input[p] && dict[(p + 1) % DICT_SIZE] == input[p + 1]
    {
      assert Live(dict[..], input, p);
      assert SlotHolds(dict[..], input, p) && SlotHolds(dict[..], input, p + 1);
    }

    /** Fills the lookahead from the input; the dictionary shrinks by what was overwritten. */
    method Fill(src: seq<Byte>, at: nat) returns (at': nat)
      requires Valid() && Chained() && at <= |src|
      modifies this`lookaheadSize, this`dictSize, this`input, dict, next, hash
      ensures Valid() && Chained() && dictSize == Min(DICT_SIZE - lookaheadSize, old(dictSize))
      ensures at' == at + Min(|src| - at, MAX_MATCH - old(lookaheadSize))
      ensures input == old(input) + src[at..at'] && lookaheadSize == old(lookaheadSize) + (at' - at)
    {
      if lookaheadSize + dictSize >= MIN_MATCH - 1 {
        at' := FillFast(src, at);
      } else {
        at' := FillSlow(src, at);
      }
      CutDict();
    }

    method CutDict()
      requires Filling() && Chained()
      modifies this`dictSize
      ensures Valid() && Chained() && dictSize == Min(DICT_SIZE - lookaheadSize, old(dictSize))
    {
      BaseIsBehind();
      assert Shown(this, 0);
      dictSize := Min(DICT_SIZE - lookaheadSize, dictSize);
    }

    // ---- Searching

    /** What the ring holds `k` bytes into the lookahead. */
    lemma LookaheadByte(k: nat)
      requires Valid() && k < lookaheadSize
      ensures lookaheadPos % DICT_SIZE + k < dict.Length
          && dict[lookaheadPos % DICT_SIZE + k] == input[lookaheadPos + k]
    {
      ReadAhead(dict[..], input, lookaheadPos - dictSize, lookaheadPos, k);
    }

    /** What the ring holds `k` bytes behind the position `dist` before the lookahead. */
    lemma EarlierByte(dist: nat, k: nat)
      requires Valid() && k < lookaheadSize && 1 <= dist <= dictSize
      ensures var p := (lookaheadPos - dist) % DICT_SIZE;
              p + k < dict.Length && dict[p + k] == input[lookaheadPos - dist + k]
    {
      ReadAhead(dict[..], input, lookaheadPos - dictSize, lookaheadPos - dist, k);
    }

    /** The candidates that a search may look at: three for each probe. */
    ghost function Chain(probes: nat): (cs: seq<nat>)
      requires next.Length == DICT_SIZE && probes >= 1
      reads this, next
    {
      Candidates(next[..], lookaheadPos, dictSize, lookaheadPos % DICT_SIZE, 3 * (probes - 1))
    }

    /** Behind `v` steps along the chain, with some of the probes left. */
    ghost predicate StandsAt(cs: seq<nat>, probes: nat, v: nat, probePos: nat, probesLeft: nat)
      reads this, next
    {
      (&& Shape() && 1 <= probesLeft <= probes && cs == Chain(probes) && v <= |cs|
       && probePos == SlotAfter(next[..], lookaheadPos % DICT_SIZE, v)
       && probes - probesLeft <= v <= 3 * (probes - probesLeft)) == true
    }

    /** None of the candidates from `from` up to `to` matches more than `len` bytes. */
    ghost predicate NoneLonger(cs: seq<nat>, from: nat, to: nat, maxLen: nat, len: nat)
      reads this
    {
      (to <= |cs| && forall i :: from <= i < to ==> NoLonger(input, lookaheadPos, cs[i], maxLen, len)) == true
    }

    /** How many bytes at `probePos` agree with the lookahead. */
    method MatchLength(probePos: nat, dist: nat, maxLen: nat) returns (len: nat)
      requires Valid() && maxLen <= lookaheadSize && 1 <= dist <= dictSize
          && probePos == (lookaheadPos - dist) % DICT_SIZE
      ensures len <= maxLen && Repeats(input, lookaheadPos, len, dist)
      ensures NoLonger(input, lookaheadPos, dist, maxLen, len)
    {
      var pos := lookaheadPos % DICT_SIZE;
      len := 0;
      while len < maxLen
        invariant len <= maxLen && Repeats(input, lookaheadPos, len, dist)
      {
        LookaheadByte(len);
        EarlierByte(dist, len);
        if dict[pos + len] != dict[probePos + len] {
          RepeatEnds(input, lookaheadPos, dist, maxLen, len);
          break;
        }
        RepeatsMore(input, lookaheadPos, len, dist);
        len := len + 1;
      }
    }

    /** `TDEFL_PROBE`: one step along the hash chain. */
    method Probe(probePos: nat, matchLen: nat, c0: Byte, c1: Byte, maxDist: nat, ghost cs: seq<nat>, ghost k: nat,
                 ghost v: nat)
      returns (stop: bool, hit: bool, probePos': nat, dist: nat)
      requires Valid() && 1 <= matchLen < lookaheadSize && maxDist == dictSize
      requires Ahead(matchLen, c0, c1)
      requires v < k && cs == Candidates(next[..], lookaheadPos, dictSize, lookaheadPos % DICT_SIZE, k) && v <= |cs|
      requires probePos == SlotAfter(next[..], lookaheadPos % DICT_SIZE, v)
      ensures stop ==> !hit && |cs| == v
      ensures !stop && dist == 0 ==> hit && |cs| == v
      ensures !stop && dist >= 1 ==>
                && v < |cs| && cs[v] == dist && probePos' == (lookaheadPos - dist) % DICT_SIZE
                && probePos' == SlotAfter(next[..], lookaheadPos % DICT_SIZE, v + 1)
                && (!hit ==> NoLonger(input, lookaheadPos, dist, lookaheadSize, matchLen))
    {
      NextOnChain(next[..], lookaheadPos, dictSize, lookaheadPos % DICT_SIZE, k, v);
      var nextProbe := next[probePos];
      probePos' := probePos;
      dist := (lookaheadPos - nextProbe) % 0x1_0000;
      hit := false;
      stop := nextProbe == 0 || dist > maxDist;
      if !stop {
        probePos' := nextProbe % DICT_SIZE;
        CandidateSlot(lookaheadPos, nextProbe, dist);
        hit := LooksGood(probePos', matchLen, c0, c1, dist);
      }
    }

    /** The bytes of the lookahead in which a match longer than `len` has to agree. */
    ghost predicate Ahead(len: nat, c0: Byte, c1: Byte)
      reads this
    {
      (&& 1 <= len && lookaheadPos + len < |input|
       && c0 == input[lookaheadPos + len] && c1 == input[lookaheadPos + len - 1]) == true
    }

    /** Compares the two bytes in which a longer match would have to agree. */
    method LooksGood(probePos: nat, matchLen: nat, c0: Byte, c1: Byte, ghost dist: nat) returns (hit: bool)
      requires Valid() && 1 <= matchLen < lookaheadSize && dist <= dictSize
      requires probePos == (lookaheadPos - dist) % DICT_SIZE
      requires Ahead(matchLen, c0, c1)
      ensures dist == 0 ==> hit
      ensures dist >= 1 && !hit ==> NoLonger(input, lookaheadPos, dist, lookaheadSize, matchLen)
    {
      hit := dict[probePos + matchLen] == c0 && dict[probePos + matchLen - 1] == c1;
      LookaheadByte(matchLen);
      LookaheadByte(matchLen - 1);
      if dist >= 1 && !hit {
        NoHit(dist, matchLen, dict[probePos + matchLen], dict[probePos + matchLen - 1]);
      }
    }

    lemma NoHit(dist: nat, matchLen: nat, x: Byte, y: Byte)
      requires Valid() && 1 <= matchLen < lookaheadSize && 1 <= dist <= dictSize
      requires var p := (lookaheadPos - dist) % DICT_SIZE;
               x == dict[p + matchLen] && y == dict[p + matchLen - 1]
      requires x != input[lookaheadPos + matchLen] || y != input[lookaheadPos + matchLen - 1]
      ensures NoLonger(input, lookaheadPos, dist, lookaheadSize, matchLen)
    {
      EarlierByte(dist, matchLen);
      EarlierByte(dist, matchLen - 1);
      if x != input[lookaheadPos + matchLen] {
        RepeatEnds(input, lookaheadPos, dist, lookaheadSize, matchLen);
      } else {
        RepeatEnds(input, lookaheadPos, dist, lookaheadSize, matchLen - 1);
      }
    }

    /** Candidate `v - 1` is worth a closer look, those before it from `first` on are not. */
    ghost predicate Hit(cs: seq<nat>, probes: nat, first: nat, v: nat, probePos: nat, dist: nat, probesLeft: nat,
                        matchLen: nat)
      reads this, next
    {
      (&& first < v && StandsAt(cs, probes, v, probePos, probesLeft) && dist == cs[v - 1] && dist <= lookaheadPos
       && probePos == (lookaheadPos - dist) % DICT_SIZE
       && NoneLonger(cs, first, v - 1, lookaheadSize, matchLen)) == true
    }

    /** Follows the chain until a candidate agrees in the last two bytes; three probes cost one. */
    method NextCandidate(probePos: nat, probesLeft: nat, matchLen: nat, c0: Byte, c1: Byte, maxDist: nat,
                         ghost cs: seq<nat>, ghost probes: nat, ghost v: nat)
      returns (found: bool, probePos': nat, dist: nat, probesLeft': nat, ghost v': nat)
      requires Valid() && 1 <= matchLen < lookaheadSize && maxDist == dictSize
      requires Ahead(matchLen, c0, c1)
      requires StandsAt(cs, probes, v, probePos, probesLeft)
      ensures v <= v' <= |cs| && probesLeft' < probesLeft
      ensures if found && dist >= 1 then Hit(cs, probes, v, v', probePos', dist, probesLeft', matchLen)
              else NoneLonger(cs, v, v', lookaheadSize, matchLen) && (v' == |cs| || v' >= probes - 1)
    {
      probePos', probesLeft', dist, v', found := probePos, probesLeft, 0, v, false;
      while true
        invariant v <= v' && probesLeft' <= probesLeft && StandsAt(cs, probes, v', probePos', probesLeft')
        invariant NoneLonger(cs, v, v', lookaheadSize, matchLen)
        decreases probesLeft'
      {
        probesLeft' := probesLeft' - 1;
        if probesLeft' == 0 {
          return false, probePos', dist, probesLeft', v';
        }
        var done;
        done, found, probePos', dist, v' :=
          ThreeProbes(probePos', matchLen, c0, c1, maxDist, cs, probes, probesLeft', v, v');
        if done {
          return;
        }
      }
    }

    /** One round of the search: up to three probes. */
    method ThreeProbes(probePos: nat, matchLen: nat, c0: Byte, c1: Byte, maxDist: nat, ghost cs: seq<nat>,
                       ghost probes: nat, ghost probesLeft: nat, ghost first: nat, ghost v: nat)
      returns (done: bool, found: bool, probePos': nat, dist: nat, ghost v': nat)
      requires Valid() && 1 <= matchLen < lookaheadSize && maxDist == dictSize && probesLeft >= 1
      requires Ahead(matchLen, c0, c1)
      requires first <= v && StandsAt(cs, probes, v, probePos, probesLeft + 1)
      requires NoneLonger(cs, first, v, lookaheadSize, matchLen)
      ensures v <= v' <= |cs| && (found ==> done)
      ensures !done ==> NoneLonger(cs, first, v', lookaheadSize, matchLen)
                        && StandsAt(cs, probes, v', probePos', probesLeft)
      ensures done ==> if found && dist >= 1 then Hit(cs, probes, first, v', probePos', dist, probesLeft, matchLen)
                       else NoneLonger(cs, first, v', lookaheadSize, matchLen) && v' == |cs|
    {
      probePos', dist, v', done, found := probePos, 0, v, false, false;
      var i := 0;
      while i < 3
        invariant 0 <= i <= 3 && v' == v + i <= |cs| && !found && !done
        invariant probePos' == SlotAfter(next[..], lookaheadPos % DICT_SIZE, v')
        invariant NoneLonger(cs, first, v', lookaheadSize, matchLen)
      {
        var stop, hit;
        stop, hit, probePos', dist := Probe(probePos', matchLen, c0, c1, maxDist, cs, 3 * (probes - 1), v');
        v' := v' + if !stop && dist >= 1 then 1 else 0;
        if stop || hit {
          return true, hit, probePos', dist, v';
        }
        i := i + 1;
      }
    }

    /**
     What a search promises. Of the candidates on the chain, the first `probes - 1` at least
     have been looked at, and none of these is longer than the result; the result is what it
     was before, or the first of the candidates that is so long.
     */
    ghost predicate Searched(maxLen: nat, probes: nat, matchDist: nat, matchLen: nat, dist: nat, len: nat)
      requires next.Length == DICT_SIZE && probes >= 1
      reads this, next
    {
      var cs := Chain(probes);
      (&& (exists v: nat :: SearchedUpTo(cs, v, maxLen, len) && (v == |cs| || v >= probes - 1))
       && SoFarBest(cs, maxLen, matchDist, matchLen, dist, len)) == true
    }

    ghost predicate SearchedUpTo(cs: seq<nat>, v: nat, maxLen: nat, len: nat)
      reads this
    {
      NoneLonger(cs, 0, v, maxLen, len)
    }

    /** Candidate `j` matches `len` bytes, and those before it fewer. */
    ghost predicate FoundAt(cs: seq<nat>, j: nat, maxLen: nat, dist: nat, len: nat)
      reads this
    {
      && j < |cs| && dist == cs[j] && len >= 1 && Repeats(input, lookaheadPos, len, dist)
      && NoneLonger(cs, 0, j, maxLen, len - 1)
    }

    /** `tdefl_find_match` */
    method FindMatch(maxLen: nat, probes: nat, matchDist: nat, matchLen: nat) returns (dist: nat, len: nat)
      requires Valid() && maxLen == lookaheadSize && 1 <= matchLen < MAX_MATCH && probes >= 1
      ensures Searched(maxLen, probes, matchDist, matchLen, dist, len)
    {
      dist, len := matchDist, matchLen;
      ghost var cs, v := Chain(probes), 0;
      if maxLen <= matchLen {
        IsSearched(cs, |cs|, maxLen, probes, matchDist, matchLen, dist, len);
        return;
      }
      var pos := lookaheadPos % DICT_SIZE;
      var c0, c1 := LastTwo(len);
      var probePos: nat, probesLeft: nat := pos, probes;
      while true
        invariant 1 <= len < maxLen && StandsAt(cs, probes, v, probePos, probesLeft)
        invariant Ahead(len, c0, c1)
        invariant NoneLonger(cs, 0, v, maxLen, len) && SoFarBest(cs, maxLen, matchDist, matchLen, dist, len)
        decreases probesLeft
      {
        var found, candDist;
        ghost var v0 := v;
        found, probePos, candDist, probesLeft, v :=
          NextCandidate(probePos, probesLeft, len, c0, c1, dictSize, cs, probes, v);
        if !found || candDist == 0 {
          IsSearched(cs, v, maxLen, probes, matchDist, matchLen, dist, len);
          return;
        }
        var longer;
        longer, dist, len := Compare(probePos, candDist, maxLen, dist, len, cs, v, matchDist, matchLen);
        if len == maxLen {
          IsSearched(cs, |cs|, maxLen, probes, matchDist, matchLen, dist, len);
          return;
        }
        if longer {
          c0, c1 := LastTwo(len);
        }
      }
    }

    lemma IsSearched(cs: seq<nat>, v: nat, maxLen: nat, probes: nat, matchDist: nat, matchLen: nat, dist: nat, len: nat)
      requires Shape() && probes >= 1 && cs == Chain(probes) && v <= |cs| && (v == |cs| || v >= probes - 1)
      requires NoneLonger(cs, 0, v, maxLen, len) || len >= maxLen
      requires SoFarBest(cs, maxLen, matchDist, matchLen, dist, len)
      ensures Searched(maxLen, probes, matchDist, matchLen, dist, len)
    {
      assert SearchedUpTo(cs, v, maxLen, len);
    }

    /** Takes a candidate if it is longer than what there is. */
    method Compare(probePos: nat, candDist: nat, maxLen: nat, dist: nat, len: nat, ghost cs: seq<nat>, ghost v: nat,
                   ghost matchDist: nat, ghost matchLen: nat)
      returns (longer: bool, dist': nat, len': nat)
      requires Valid() && maxLen == lookaheadSize && 1 <= candDist <= dictSize && 1 <= len < maxLen
          && probePos == (lookaheadPos - candDist) % DICT_SIZE
      requires 1 <= v <= |cs| && candDist == cs[v - 1] && NoneLonger(cs, 0, v - 1, maxLen, len)
      requires SoFarBest(cs, maxLen, matchDist, matchLen, dist, len)
      ensures if longer then len < len' <= maxLen else len' == len
      ensures NoneLonger(cs, 0, v, maxLen, len') && SoFarBest(cs, maxLen, matchDist, matchLen, dist', len')
    {
      dist', len', longer := dist, len, false;
      var candLen := MatchLength(probePos, candDist, maxLen);
      TakenIn(cs, v, maxLen, len, candLen, matchDist, matchLen, dist);
      if candLen > len {
        dist', len', longer := candDist, candLen, true;
      }
    }

    /** What is found repeats earlier input. */
    lemma FoundRepeats(maxLen: nat, probes: nat, matchDist: nat, matchLen: nat, dist: nat, len: nat)
      requires Valid() && probes >= 1 && Searched(maxLen, probes, matchDist, matchLen, dist, len)
      ensures (dist == matchDist && len == matchLen)
           || (matchLen < len <= maxLen && 1 <= dist <= dictSize && Repeats(input, lookaheadPos, len, dist))
    {
    }

    method LastTwo(len: nat) returns (c0: Byte, c1: Byte)
      requires Valid() && 1 <= len < lookaheadSize
      ensures Ahead(len, c0, c1)
    {
      var pos := lookaheadPos % DICT_SIZE;
      LookaheadByte(len);
      LookaheadByte(len - 1);
      c0, c1 := dict[pos + len], dict[pos + len - 1];
    }

    ghost predicate SoFarBest(cs: seq<nat>, maxLen: nat, matchDist: nat, matchLen: nat, dist: nat, len: nat)
      reads this
    {
      ((dist == matchDist && len == matchLen)
       || (matchLen < len <= maxLen && exists j: nat :: FoundAt(cs, j, maxLen, dist, len))) == true
    }

    /** One more candidate with its length. */
    lemma TakenIn(cs: seq<nat>, v: nat, maxLen: nat, len: nat, candLen: nat, matchDist: nat, matchLen: nat, dist: nat)
      requires 1 <= v <= |cs| && NoneLonger(cs, 0, v - 1, maxLen, len)
      requires candLen <= maxLen && Repeats(input, lookaheadPos, candLen, cs[v - 1])
      requires NoLonger(input, lookaheadPos, cs[v - 1], maxLen, candLen)
      requires SoFarBest(cs, maxLen, matchDist, matchLen, dist, len)
      ensures candLen <= len ==> NoneLonger(cs, 0, v, maxLen, len)
      ensures candLen > len ==> NoneLonger(cs, 0, v, maxLen, candLen)
                                && SoFarBest(cs, maxLen, matchDist, matchLen, cs[v - 1], candLen)
    {
      if candLen > len {
        assert FoundAt(cs, v - 1, maxLen, cs[v - 1], candLen);
      }
    }

    /**
     With enough probes the search finds the longest match there is: no earlier position in the
     dictionary matches more bytes, as long as entries on the way to it do not read as the end.
     */
    lemma LongestIsFound(maxLen: nat, probes: nat, matchDist: nat, matchLen: nat, dist: nat, len: nat, d: nat, l: nat)
      requires Valid() && Chained() && maxLen == lookaheadSize && probes >= 1
      requires Searched(maxLen, probes, matchDist, matchLen, dist, len)
      requires MIN_MATCH <= l <= maxLen && 1 <= d <= dictSize && Repeats(input, lookaheadPos, l, d)
      requires Uncut(Hashes(input), lookaheadPos - d, lookaheadPos)
      requires Occurrences(Hashes(input), Hashes(input)[lookaheadPos], lookaheadPos - d, lookaheadPos) < probes
      ensures l <= len
    {
      var cs := Chain(probes);
      SameHash(input, lookaheadPos, l, d);
      var i := InTheChain(probes, d);
      var v: nat :| SearchedUpTo(cs, v, maxLen, len) && (v == |cs| || v >= probes - 1);
      assert NoLonger(input, lookaheadPos, cs[i], maxLen, len);
    }

    /** An earlier position with the same hash is one of the first candidates. */
    lemma InTheChain(probes: nat, d: nat) returns (i: nat)
      requires Valid() && Chained() && probes >= 1 && 1 <= d <= dictSize && lookaheadPos < |Hashes(input)|
      requires Hashes(input)[lookaheadPos] == Hashes(input)[lookaheadPos - d]
      requires Uncut(Hashes(input), lookaheadPos - d, lookaheadPos)
      requires Occurrences(Hashes(input), Hashes(input)[lookaheadPos], lookaheadPos - d, lookaheadPos) < probes
      ensures i < |Chain(probes)| && i < probes - 1 && Chain(probes)[i] == d
    {
      var hs, q, slot := Hashes(input), lookaheadPos - d, lookaheadPos % DICT_SIZE;
      BaseIsBehind();
      ChainsAsTheyAre();
      OnTheChain(next[..], hs, base, Entered(), lookaheadPos, dictSize, lookaheadPos, q, probes - 1);
      CandidatesGrow(next[..], lookaheadPos, dictSize, slot, probes - 1, 3 * (probes - 1));
      i := PlaceOf(Candidates(next[..], lookaheadPos, dictSize, slot, probes - 1), d);
    }

    lemma PlaceOf(cs: seq<nat>, d: nat) returns (i: nat)
      requires d in cs
      ensures i < |cs| && cs[i] == d
    {
      i :| 0 <= i < |cs| && cs[i] == d;
    }

    lemma ChainsAsTheyAre()
      requires Chained()
      ensures Shape() && NextsHold(next[..], Hashes(input), base, Entered())
    {
      assert Shown(this, 0);
    }

    /** How far the byte before the lookahead repeats. */
    method RunLength() returns (len: nat)
      requires Valid() && dictSize >= 1
      ensures len <= lookaheadSize && Repeats(input, lookaheadPos, len, 1)
      ensures NoLonger(input, lookaheadPos, 1, lookaheadSize, len)
    {
      var pos := lookaheadPos % DICT_SIZE;
      var c := dict[(lookaheadPos - 1) % DICT_SIZE];
      ReadAhead(dict[..], input, lookaheadPos - dictSize, lookaheadPos - 1, 0);
      len := 0;
      while len < lookaheadSize
        invariant len <= lookaheadSize && Repeats(input, lookaheadPos, len, 1) && input[lookaheadPos + len - 1] == c
      {
        LookaheadByte(len);
        if dict[pos + len] != c {
          RepeatEnds(input, lookaheadPos, 1, lookaheadSize, len);
          break;
        }
        RepeatsMore(input, lookaheadPos, len, 1);
        len := len + 1;
      }
    }

    /** Moves the lookahead on by `n` bytes. */
    method Advance(n: nat)
      requires Valid() && Chained() && n <= lookaheadSize
      modifies this`lookaheadPos, this`lookaheadSize, this`dictSize
      ensures Valid() && lookaheadPos == old(lookaheadPos) + n && lookaheadSize == old(lookaheadSize) - n
      ensures Chained() && dictSize == old(dictSize) + n
    {
      assert Shown(this, 0);
      lookaheadPos := lookaheadPos + n;
      lookaheadSize := lookaheadSize - n;
      dictSize := Min(dictSize + n, DICT_SIZE);
    }

    /** A full flush forgets everything before the lookahead. */
    method Forget()
      requires Valid() && lookaheadSize == 0
      modifies this`dictSize, this`base, next, hash
      ensures Valid() && Chained() && dictSize == 0 && base == |input|
    {
      for i := 0 to HASH_SIZE
        invariant forall k :: 0 <= k < i ==> hash[k] == 0
      {
        hash[i] := 0;
      }
      for i := 0 to DICT_SIZE
        invariant forall k :: 0 <= k < HASH_SIZE ==> hash[k] == 0
      {
        next[i] := 0;
      }
      dictSize := 0;
      base := |input|;
    }

    /** The next byte of the lookahead. */
    method NextByte() returns (c: Byte)
      requires Valid() && lookaheadSize >= 1
      ensures c == input[lookaheadPos]
    {
      LookaheadByte(0);
      c := dict[lookaheadPos % DICT_SIZE];
    }
  }
}
