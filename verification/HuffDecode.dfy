/**
 Decoding one symbol (`TINFL_HUFF_DECODE`): never loading a byte that is not needed
 when the input runs low.
 */
module HuffDecode {
  import opened Bits
  import opened Canonical
  import opened DecodeTable
  import opened InflateSpec
  import DecodeTableBuilder
  import BitReader

  /** The bit buffer as the table sees it: loaded bits, then zeros. */
  ghost function Extended(v: nat, n: nat): (s: seq<bool>)
    ensures |s| == n + 25
  {
    ToBits(v, n + 25)
  }

  lemma ExtendedStarts(v: nat, n: nat)
    requires v < Pow2(n)
    ensures ToBits(v, n) <= Extended(v, n)
    ensures Low(v, LOOKUP_BITS) == FromBits(Extended(v, n)[..LOOKUP_BITS])
  {
    ToBitsConcat(v, n, 0, 25);
    assert 0 * Pow2(n) == 0;
    ToBitsSplit(v, LOOKUP_BITS, n + 25 - LOOKUP_BITS);
    assert LOOKUP_BITS + (n + 25 - LOOKUP_BITS) == n + 25;
    assert Extended(v, n)[..LOOKUP_BITS] == ToBits(Low(v, LOOKUP_BITS), LOOKUP_BITS);
    FromToBits(Low(v, LOOKUP_BITS), LOOKUP_BITS);
  }

  /** Single bits of the bit buffer. */
  lemma BitAt(v: nat, n: nat, d: nat)
    requires d < n
    ensures ToBits(v, n)[d] <==> High(v, d) % 2 == 1
  {
    ToBitsSplit(v, d, n - d);
    assert d + (n - d) == n;
    assert ToBits(High(v, d), n - d)[0] == (High(v, d) % 2 == 1);
  }

  /** The table is complete for its lengths; kept closed. */
  ghost predicate Ready(t: DecodeTableBuilder.Table, lens: seq<nat>)
    reads t, t.lookUp, t.tree
  {
    forall k {:trigger Shown(lens, k)} :: Shown(lens, k) ==> t.lens == lens && t.Built(|lens|)
  }

  /** What the lookup finds for the next symbol. */
  ghost predicate Found(temp: int, lens: seq<nat>, nodes: Nodes, rest: seq<bool>, sym: nat)
    requires sym < |lens|
  {
    (if lens[sym] <= LOOKUP_BITS then temp == 512 * lens[sym] + sym
     else |rest| >= LOOKUP_BITS && rest[..LOOKUP_BITS] in nodes && temp == Pointer(nodes[rest[..LOOKUP_BITS]])) == true
  }

  /** When enough bits are loaded, the lookup finds the symbol or the way to it. */
  lemma LookupFinds(look: seq<int>, tree: seq<int>, lens: seq<nat>, nodes: Nodes, loaded: seq<bool>, z: seq<bool>,
                    rest: seq<bool>, sym: nat)
    requires Holds(look, tree, lens, |lens|, nodes) && Next(lens, rest, sym)
    requires loaded <= rest && loaded <= z && |z| >= 25 && lens[sym] <= |loaded|
    ensures FromBits(z[..LOOKUP_BITS]) < LOOKUP_SIZE
    ensures Found(look[FromBits(z[..LOOKUP_BITS])], lens, nodes, rest, sym)
  {
    assert CodeBits(lens, sym) <= loaded;
    assert Next(lens, z, sym);
    EntryFor(look, lens, nodes, z);
    if lens[sym] <= LOOKUP_BITS {
      ShortEntry(lens, nodes, z, sym);
    } else {
      LongEntry(lens, nodes, z, sym);
      assert z[..LOOKUP_BITS] == loaded[..LOOKUP_BITS] == rest[..LOOKUP_BITS];
    }
  }

  /** A short entry that needs no more than the loaded bits is the next symbol's. */
  lemma ShortIsNext(look: seq<int>, tree: seq<int>, lens: seq<nat>, nodes: Nodes, loaded: seq<bool>, z: seq<bool>,
                    rest: seq<bool>, sym: nat)
    requires Holds(look, tree, lens, |lens|, nodes) && Next(lens, rest, sym)
    requires loaded <= rest && loaded <= z && |z| >= 25
    ensures FromBits(z[..LOOKUP_BITS]) < LOOKUP_SIZE
    ensures var temp := look[FromBits(z[..LOOKUP_BITS])];
            temp >= 0 && 1 <= temp / 512 <= |loaded| ==> temp == 512 * lens[sym] + sym
  {
    EntryFor(look, lens, nodes, z);
    var p := z[..LOOKUP_BITS];
    var s := ShortSym(lens, |lens|, p);
    var temp := look[FromBits(p)];
    if s < |lens| {
      DivMod512(lens[s], s);
      if lens[s] <= |loaded| {
        assert CodeBits(lens, s) <= loaded;
        NextIsUnique(lens, rest, sym, s);
      }
    }
  }

  /** A pointer in the lookup means a long code word when all ten bits are loaded. */
  lemma PointerIsLong(look: seq<int>, tree: seq<int>, lens: seq<nat>, nodes: Nodes, loaded: seq<bool>, z: seq<bool>,
                      rest: seq<bool>, sym: nat)
    requires Holds(look, tree, lens, |lens|, nodes) && Next(lens, rest, sym)
    requires loaded <= rest && loaded <= z && |z| >= 25 && |loaded| >= LOOKUP_BITS
    ensures FromBits(z[..LOOKUP_BITS]) < LOOKUP_SIZE
    ensures look[FromBits(z[..LOOKUP_BITS])] < 0 ==>
              lens[sym] > LOOKUP_BITS && Found(look[FromBits(z[..LOOKUP_BITS])], lens, nodes, rest, sym)
  {
    EntryFor(look, lens, nodes, rest);
    EntryFor(look, lens, nodes, z);
    assert z[..LOOKUP_BITS] == loaded[..LOOKUP_BITS] == rest[..LOOKUP_BITS];
    if lens[sym] <= LOOKUP_BITS {
      ShortEntry(lens, nodes, rest, sym);
    } else {
      LongEntry(lens, nodes, rest, sym);
    }
  }

  /** `temp` was found at depth `d`: the way further down, or the symbol. */
  ghost predicate OnWay(temp: int, d: nat, lens: seq<nat>, nodes: Nodes, rest: seq<bool>, sym: nat) {
    (&& sym < |lens| && d <= |rest|
     && (if temp < 0 then LOOKUP_BITS <= d < lens[sym] && rest[..d] in nodes && temp == Pointer(nodes[rest[..d]])
         else temp == sym && d == lens[sym])) == true
  }

  lemma WayDown(look: seq<int>, tree: seq<int>, lens: seq<nat>, nodes: Nodes, rest: seq<bool>, sym: nat, temp: int,
                d: nat)
    requires Holds(look, tree, lens, |lens|, nodes) && Next(lens, rest, sym)
    requires OnWay(temp, d, lens, nodes, rest, sym) && temp < 0
    ensures d < |rest|
    ensures var i := -temp - 1 + (if rest[d] then 1 else 0);
            0 <= i < |tree| && OnWay(tree[i], d + 1, lens, nodes, rest, sym)
  {
    TreeLeads(tree, lens, nodes, sym);
    WayInTree(tree, lens, nodes, rest, sym, temp, d);
  }

  lemma WayInTree(tree: seq<int>, lens: seq<nat>, nodes: Nodes, rest: seq<bool>, sym: nat, temp: int, d: nat)
    requires Next(lens, rest, sym) && Leads(tree, lens, nodes, sym)
    requires OnWay(temp, d, lens, nodes, rest, sym) && temp < 0
    ensures d < |rest|
    ensures var i := -temp - 1 + (if rest[d] then 1 else 0);
            0 <= i < |tree| && OnWay(tree[i], d + 1, lens, nodes, rest, sym)
  {
    var c := CodeBits(lens, sym);
    OneMoreBit(rest, d, c);
    LeadsStep(tree, lens, nodes, rest[..d], rest[d], rest[..d + 1], c, sym);
    NextOnWay(tree[-temp - 1 + (if rest[d] then 1 else 0)], d, lens, nodes, rest, rest[..d + 1], sym);
  }

  lemma NextOnWay(v: int, d: nat, lens: seq<nat>, nodes: Nodes, rest: seq<bool>, q: seq<bool>, sym: nat)
    requires sym < |lens| && d < |rest| && LOOKUP_BITS <= d < lens[sym] && q == rest[..d + 1]
    requires if d + 1 == lens[sym] then v == sym else q in nodes && v == Pointer(nodes[q])
    ensures OnWay(v, d + 1, lens, nodes, rest, sym)
  {
  }

  lemma OneMoreBit(rest: seq<bool>, d: nat, c: seq<bool>)
    requires d < |c| && c <= rest
    ensures |rest[..d]| == d && rest[..d + 1] == rest[..d] + [rest[d]] && rest[..d + 1] <= c
  {
    TakeOneMore(rest, d, c);
  }

  lemma LeadsStep(tree: seq<int>, lens: seq<nat>, nodes: Nodes, p: seq<bool>, b: bool, q: seq<bool>, c: seq<bool>,
                  sym: nat)
    requires sym < |lens| && Leads(tree, lens, nodes, sym) && c == CodeBits(lens, sym)
    requires p in nodes && q == p + [b] && q <= c
    ensures var i := nodes[p] + (if b then 1 else 0);
            && i < |tree|
            && (if |p| + 1 == lens[sym] then tree[i] == sym else q in nodes && tree[i] == Pointer(nodes[q]))
  {
    assert StepsTo(tree, lens, nodes, p, b, sym);
  }

  class Decoder {
    const r: BitReader.Reader

    constructor (r: BitReader.Reader)
      ensures this.r == r
    {
      this.r := r;
    }

    /** The next symbol of a valid stream. */
    ghost predicate Ahead(t: DecodeTableBuilder.Table, lens: seq<nat>, sym: nat)
      reads r, t, t.lookUp, t.tree
    {
      (r.Valid() && Ready(t, lens) && Next(lens, r.rest, sym)) == true
    }

    lemma FoundOnWay(t: DecodeTableBuilder.Table, start: int, lens: seq<nat>, sym: nat)
      requires Ahead(t, lens, sym) && lens[sym] > LOOKUP_BITS && Found(start, lens, t.nodes, r.rest, sym)
      ensures OnWay(start, LOOKUP_BITS, lens, t.nodes, r.rest, sym)
    {
    }

    /** Walks down the tree from depth ten while bits are loaded. */
    method Walk(t: DecodeTableBuilder.Table, start: int, ghost lens: seq<nat>, ghost sym: nat)
      returns (temp: int, codeLen: nat)
      requires Ahead(t, lens, sym) && lens[sym] > LOOKUP_BITS && r.numBits > LOOKUP_BITS
      requires Found(start, lens, t.nodes, r.rest, sym)
      ensures temp >= 0 <==> lens[sym] <= r.numBits
      ensures temp >= 0 ==> temp == sym && codeLen == lens[sym]
    {
      FoundOnWay(t, start, lens, sym);
      temp, codeLen := start, LOOKUP_BITS;
      while temp < 0 && codeLen < r.numBits
        invariant LOOKUP_BITS <= codeLen <= r.numBits
        invariant OnWay(temp, codeLen, lens, t.nodes, r.rest, sym)
        decreases r.numBits - codeLen
      {
        temp := Descend(t, temp, codeLen, lens, sym);
        codeLen := codeLen + 1;
      }
    }

    /** One step down the tree. */
    method Descend(t: DecodeTableBuilder.Table, temp: int, codeLen: nat, ghost lens: seq<nat>, ghost sym: nat)
      returns (temp': int)
      requires Ahead(t, lens, sym) && OnWay(temp, codeLen, lens, t.nodes, r.rest, sym) && temp < 0
          && codeLen < r.numBits
      ensures OnWay(temp', codeLen + 1, lens, t.nodes, r.rest, sym)
    {
      assert Shown(lens, 0);
      r.RestStarts();
      BitAt(r.bitBuf, r.numBits, codeLen);
      assert r.Loaded()[codeLen] == r.rest[codeLen];
      WayDown(t.lookUp[..], t.tree[..], lens, t.nodes, r.rest, sym, temp, codeLen);
      temp' := t.tree[-temp - 1 + High(r.bitBuf, codeLen) % 2];
    }

    /** Whether the bits at hand are enough for the next symbol. */
    method Enough(t: DecodeTableBuilder.Table, ghost lens: seq<nat>, ghost sym: nat) returns (e: bool)
      requires Ahead(t, lens, sym)
      ensures e <==> lens[sym] <= r.numBits
    {
      assert Shown(lens, 0);
      ghost var z := Extended(r.bitBuf, r.numBits);
      r.RestStarts();
      ExtendedStarts(r.bitBuf, r.numBits);
      ShortIsNext(t.lookUp[..], t.tree[..], lens, t.nodes, r.Loaded(), z, r.rest, sym);
      if lens[sym] <= r.numBits {
        LookupFinds(t.lookUp[..], t.tree[..], lens, t.nodes, r.Loaded(), z, r.rest, sym);
      }
      var temp := t.lookUp[Low(r.bitBuf, LOOKUP_BITS)];
      if temp >= 0 {
        e := temp / 512 != 0 && r.numBits >= temp / 512;
      } else if r.numBits > LOOKUP_BITS {
        PointerIsLong(t.lookUp[..], t.tree[..], lens, t.nodes, r.Loaded(), z, r.rest, sym);
        var codeLen;
        temp, codeLen := Walk(t, temp, lens, sym);
        e := temp >= 0;
      } else {
        e := false;
      }
    }

    lemma SizeIsSmall(t: DecodeTableBuilder.Table, lens: seq<nat>, sym: nat)
      requires Ahead(t, lens, sym)
      ensures 1 <= lens[sym] <= MAX_CODE_SIZE && lens[sym] <= |r.rest|
    {
      assert Shown(lens, 0);
    }

    /** `TINFL_HUFF_BITBUF_FILL`: loads bytes one at a time until the symbol is complete. */
    method Fill(t: DecodeTableBuilder.Table, ghost lens: seq<nat>, ghost sym: nat) returns (ok: bool)
      requires Ahead(t, lens, sym)
      modifies r`bitBuf, r`numBits, r`inPos
      ensures Ahead(t, lens, sym) && r.rest == old(r.rest)
      ensures ok <==> lens[sym] <= r.numBits
      ensures !ok ==> r.inPos == |r.inp|
    {
      SizeIsSmall(t, lens, sym);
      ok := Enough(t, lens, sym);
      while !ok && r.inPos < |r.inp|
        invariant Ahead(t, lens, sym) && r.rest == old(r.rest)
        invariant ok <==> lens[sym] <= r.numBits
        decreases |r.inp| - r.inPos
      {
        r.LoadByte();
        if r.numBits >= MAX_CODE_SIZE {
          ok := true;
        } else {
          ok := Enough(t, lens, sym);
        }
      }
    }

    /** Takes the symbol whose code word is at hand. */
    method Take(t: DecodeTableBuilder.Table, ghost lens: seq<nat>, ghost next: nat) returns (sym: nat)
      requires Ahead(t, lens, next) && lens[next] <= r.numBits
      modifies r`bitBuf, r`numBits, r`rest
      ensures r.Valid() && Ready(t, lens) && sym == next && r.rest == old(r.rest)[lens[next]..]
      ensures r.numBits == old(r.numBits) - lens[next]
    {
      assert Shown(lens, 0);
      ghost var z := Extended(r.bitBuf, r.numBits);
      r.RestStarts();
      ExtendedStarts(r.bitBuf, r.numBits);
      LookupFinds(t.lookUp[..], t.tree[..], lens, t.nodes, r.Loaded(), z, r.rest, next);
      var temp := t.lookUp[Low(r.bitBuf, LOOKUP_BITS)];
      var codeLen: nat;
      if temp >= 0 {
        DivMod512(lens[next], next);
        codeLen := temp / 512;
        sym := temp % 512;
      } else {
        temp, codeLen := Walk(t, temp, lens, next);
        sym := temp;
      }
      r.Drop(codeLen);
    }

    /** `TINFL_HUFF_DECODE`: `filling` says that the last call stopped while loading single bytes. */
    method Decode(t: DecodeTableBuilder.Table, filling: bool, ghost lens: seq<nat>, ghost next: nat)
      returns (ok: bool, sym: nat)
      requires Ahead(t, lens, next) && (filling ==> r.numBits < MAX_CODE_SIZE)
      modifies r`bitBuf, r`numBits, r`inPos, r`rest
      ensures r.Valid() && Ready(t, lens) && 1 <= lens[next] <= MAX_CODE_SIZE && lens[next] <= |old(r.rest)|
      ensures ok ==> sym == next && r.rest == old(r.rest)[lens[next]..]
      ensures !ok ==> r.rest == old(r.rest) && r.inPos == |r.inp| && r.numBits < lens[next]
    {
      SizeIsSmall(t, lens, next);
      sym := 0;
      if r.numBits < MAX_CODE_SIZE {
        if filling || |r.inp| - r.inPos < 2 {
          ok := Fill(t, lens, next);
          if !ok {
            return;
          }
        } else {
          r.LoadByte();
          r.LoadByte();
        }
      }
      ok := true;
      sym := Take(t, lens, next);
    }
  }
}
