/**
 The decompressor's table object and the loop that fills it.
 */
module DecodeTableBuilder {
  import opened Bits
  import opened Canonical
  import opened DecodeTable

  // ---- The table

  /** `tinfl_huff_table` */
  class Table {
    const codeSize: array<nat>
    const lookUp: array<int>
    const tree: array<int>
    ghost var lens: seq<nat>
    ghost var nodes: Nodes

    ghost predicate Valid() {
      (&& codeSize.Length == MAX_SYMBOLS && lookUp.Length == LOOKUP_SIZE && tree.Length == TREE_SIZE
       && lookUp != tree && codeSize as object != lookUp as object && codeSize as object != tree as object) == true
    }

    /** The arrays hold the code words of the first `s` symbols. */
    ghost predicate Built(s: nat)
      reads this, lookUp, tree
    {
      (Valid() && Holds(lookUp[..], tree[..], lens, s, nodes)) == true
    }

    /** `next_code` holds the next free code word of every length. */
    ghost predicate Starts(next: array<nat>, s: nat)
      reads this`lens, next
    {
      (&& next.Length == 17 && s <= |lens|
       && forall l :: 1 <= l <= MAX_CODE_SIZE ==> next[l] == First(lens, l) + CountUpTo(lens, s, l)) == true
    }

    ghost predicate Apart(next: array<nat>)
      reads this
    {
      (next as object != codeSize as object && next as object != lookUp as object
          && next as object != tree as object) == true
    }

    constructor ()
      ensures Valid() && fresh(codeSize) && fresh(lookUp) && fresh(tree)
    {
      codeSize := new nat[MAX_SYMBOLS];
      lookUp := new int[LOOKUP_SIZE];
      tree := new int[TREE_SIZE];
      lens := [];
      nodes := map[];
    }

    method ClearArrays()
      requires Valid()
      modifies lookUp, tree
      ensures forall x :: 0 <= x < LOOKUP_SIZE ==> lookUp[x] == 0
      ensures forall i :: 0 <= i < TREE_SIZE ==> tree[i] == 0
    {
      for x := 0 to LOOKUP_SIZE
        invariant forall y :: 0 <= y < x ==> lookUp[y] == 0
      {
        lookUp[x] := 0;
      }
      for i := 0 to TREE_SIZE
        invariant forall x :: 0 <= x < LOOKUP_SIZE ==> lookUp[x] == 0
        invariant forall j :: 0 <= j < i ==> tree[j] == 0
      {
        tree[i] := 0;
      }
    }

    /** `total_syms` */
    method CountTotals(tableSize: nat) returns (totalSyms: array<nat>)
      requires Valid() && tableSize <= MAX_SYMBOLS && SizesFit(codeSize[..tableSize])
      ensures fresh(totalSyms) && totalSyms.Length == 16
      ensures forall l :: 0 <= l < 16 ==> totalSyms[l] == Count(codeSize[..tableSize], l)
    {
      ghost var s := codeSize[..tableSize];
      totalSyms := new nat[16](_ => 0);
      var i: nat := 0;
      while i < tableSize
        invariant 0 <= i <= tableSize
        invariant forall l :: 0 <= l < 16 ==> totalSyms[l] == CountUpTo(s, i, l)
        invariant s == codeSize[..tableSize]
      {
        assert codeSize[i] == s[i];
        totalSyms[codeSize[i]] := totalSyms[codeSize[i]] + 1;
        i := i + 1;
      }
    }

    /** Stores a short code word in every slot it is a prefix of. */
    method FillLookup(rev: nat, size: nat, s: nat)
      requires Valid() && 1 <= size <= LOOKUP_BITS && rev < Pow2(size) && s < 512
      modifies lookUp
      ensures forall x :: 0 <= x < LOOKUP_SIZE ==>
                lookUp[x] == if StartsWith(x, rev, size) then 512 * size + s else old(lookUp[x])
    {
      var r := rev;
      FirstStart(rev, size);
      while r < LOOKUP_SIZE
        invariant StartsWith(r, rev, size)
        invariant forall x :: 0 <= x < LOOKUP_SIZE ==>
                    lookUp[x] == if x < r && StartsWith(x, rev, size) then 512 * size + s else old(lookUp[x])
        decreases LOOKUP_SIZE - r
      {
        NextStart(r, rev, size);
        lookUp[r] := 512 * size + s;
        r := r + Pow2(size);
      }
    }

    /** Makes the root of a subtree in lookup slot `x`. */
    method MakeRoot(s: nat, ghost q: seq<bool>, x: nat, treeNext: int)
      requires Built(s) && |q| == LOOKUP_BITS && Inner(lens, q) && q !in nodes
      requires FromBits(q) == x < LOOKUP_SIZE && treeNext == Pointer(2 * |nodes|)
      modifies this`nodes, lookUp
      ensures Built(s) && nodes == old(nodes)[q := 2 * |old(nodes)|] && |nodes| == |old(nodes)| + 1
      ensures lookUp[x] == treeNext
    {
      AddRoot(lookUp[..], tree[..], lens, s, nodes, q);
      MapGrows(nodes, q, 2 * |nodes|);
      ghost var look := lookUp[..];
      lookUp[x] := treeNext;
      assert lookUp[..] == look[x := treeNext];
      nodes := nodes[q := 2 * |nodes|];
    }

    /** Makes child `b` of node `p` in tree slot `i`. */
    method MakeChild(s: nat, ghost p: seq<bool>, ghost b: bool, i: nat, treeNext: int)
      requires Built(s) && p in nodes && Inner(lens, p + [b]) && p + [b] !in nodes
      requires i == nodes[p] + (if b then 1 else 0) < TREE_SIZE && treeNext == Pointer(2 * |nodes|)
      modifies this`nodes, tree
      ensures Built(s) && nodes == old(nodes)[p + [b] := 2 * |old(nodes)|] && |nodes| == |old(nodes)| + 1
    {
      AddChild(lookUp[..], tree[..], lens, s, nodes, p, b, i);
      MapGrows(nodes, p + [b], 2 * |nodes|);
      ghost var before := tree[..];
      tree[i] := treeNext;
      assert tree[..] == before[i := treeNext];
      nodes := nodes[p + [b] := 2 * |nodes|];
    }

    /** Stores symbol `s` in the slot its last bit selects. */
    method StoreLeaf(s: nat, ghost p: seq<bool>, ghost b: bool, i: nat)
      requires Built(s) && s < |lens| && lens[s] > LOOKUP_BITS && p in nodes && CodeBits(lens, s) == p + [b]
      requires i == nodes[p] + (if b then 1 else 0) < TREE_SIZE
      modifies tree
      ensures Built(s + 1)
    {
      SetLeaf(lookUp[..], tree[..], lens, s, nodes, p, b, i);
      ghost var before := tree[..];
      tree[i] := s;
      assert tree[..] == before[i := s];
    }

    /** The lookup step: finds or makes the root for the first ten bits. */
    method EnterTree(s: nat, rev: nat, ghost c: seq<bool>, treeNext: int) returns (treeCur: int, treeNext': int)
      requires Built(s) && s < |lens| && lens[s] > LOOKUP_BITS && c == CodeBits(lens, s)
      requires rev < Pow2(lens[s]) && ToBits(rev, lens[s]) == c && treeNext == Pointer(2 * |nodes|)
      modifies this`nodes, lookUp
      ensures Built(s) && treeNext' == Pointer(2 * |nodes|)
      ensures c[..LOOKUP_BITS] in nodes && treeCur == Pointer(nodes[c[..LOOKUP_BITS]])
    {
      PathIsInner(lens, s, LOOKUP_BITS);
      LowIsPrefix(rev, lens[s], c);
      RootTest(lookUp[..], tree[..], lens, s, nodes, c[..LOOKUP_BITS]);
      treeNext' := treeNext;
      treeCur := lookUp[Low(rev, LOOKUP_BITS)];
      if treeCur == 0 {
        MakeRoot(s, c[..LOOKUP_BITS], Low(rev, LOOKUP_BITS), treeNext');
        treeCur := treeNext';
        treeNext' := treeNext' - 2;
      }
    }

    /** One turn of the inner loop: follows the next bit, making the node if needed. */
    method Descend(s: nat, ghost q: seq<bool>, ghost b: bool, r: nat, treeCur: int, treeNext: int)
      returns (treeCur': int, treeNext': int)
      requires Built(s) && s < |lens| && treeNext == Pointer(2 * |nodes|)
      requires LOOKUP_BITS <= |q| && |q| + 1 < lens[s] && q + [b] <= CodeBits(lens, s)
      requires q in nodes && treeCur == Pointer(nodes[q]) && r / 2 % 2 == (if b then 1 else 0)
      modifies this`nodes, tree
      ensures Built(s) && treeNext' == Pointer(2 * |nodes|)
      ensures q + [b] in nodes && treeCur' == Pointer(nodes[q + [b]])
    {
      NextSlot(lookUp[..], tree[..], lens, s, nodes, q, b);
      treeCur' := treeCur - r / 2 % 2;
      treeNext' := treeNext;
      if tree[-treeCur' - 1] == 0 {
        MakeChild(s, q, b, -treeCur' - 1, treeNext');
        treeCur' := treeNext';
        treeNext' := treeNext' - 2;
      } else {
        treeCur' := tree[-treeCur' - 1];
      }
    }

    /** Threads a long code word through the tree, making nodes on the way. */
    method InsertLong(rev: nat, size: nat, s: nat, treeNext: int) returns (treeNext': int)
      requires Built(s) && s < |lens| && size == lens[s] > LOOKUP_BITS
      requires rev < Pow2(size) && ToBits(rev, size) == CodeBits(lens, s)
      requires treeNext == Pointer(2 * |nodes|)
      modifies this`nodes, lookUp, tree
      ensures Built(s + 1) && treeNext' == Pointer(2 * |nodes|)
    {
      ghost var c := CodeBits(lens, s);
      var treeCur;
      treeCur, treeNext' := EnterTree(s, rev, c, treeNext);
      var r := High(rev, LOOKUP_BITS - 1);
      HighBits(rev, size, c);
      ghost var q, rest := c[..LOOKUP_BITS], c[LOOKUP_BITS..];
      var j := size;
      while j > LOOKUP_BITS + 1
        invariant LOOKUP_BITS + 1 <= j <= size && |rest| == j - LOOKUP_BITS && |q| >= LOOKUP_BITS
        invariant c == q + rest
        invariant Built(s) && treeNext' == Pointer(2 * |nodes|)
        invariant OnPath(q, rest, treeCur, r, nodes)
      {
        NextBit(rest, r);
        MoveOneBit(q, rest);
        treeCur, treeNext' := Descend(s, q, rest[0], r, treeCur, treeNext');
        q, rest := q + [rest[0]], rest[1..];
        r := r / 2;
        j := j - 1;
      }
      NextBit(rest, r);
      assert rest == [rest[0]];
      StoreLast(s, q, rest[0], treeCur - r / 2 % 2);
    }

    method StoreLast(s: nat, ghost q: seq<bool>, ghost b: bool, treeCur: int)
      requires Built(s) && s < |lens| && lens[s] > LOOKUP_BITS && CodeBits(lens, s) == q + [b]
      requires q in nodes && treeCur == Pointer(nodes[q]) - (if b then 1 else 0)
      modifies tree
      ensures Built(s + 1)
    {
      assert SlotOk(tree[..], lens, s, nodes, q, b);
      StoreLeaf(s, q, b, -treeCur - 1);
    }

    lemma MoveOneBit(q: seq<bool>, rest: seq<bool>)
      requires rest != []
      ensures q + rest == q + [rest[0]] + rest[1..] && q + [rest[0]] <= q + rest
    {
    }

    /** Stores the code word of symbol `s`. */
    method AddSymbol(s: nat, next: array<nat>, treeNext: int) returns (treeNext': int)
      requires Built(s) && s < |lens| && codeSize[s] == lens[s]
      requires Starts(next, s) && treeNext == Pointer(2 * |nodes|) && Apart(next)
      modifies this`nodes, lookUp, tree, next
      ensures Built(s + 1) && treeNext' == Pointer(2 * |nodes|) && Starts(next, s + 1)
    {
      treeNext' := treeNext;
      var size := codeSize[s];
      if size == 0 {
        SkipSymbol(lookUp[..], tree[..], lens, s, nodes);
        return;
      }
      CodeFits(lens, s);
      var curCode := next[size];
      assert curCode == Code(lens, s);
      next[size] := curCode + 1;
      var rev := ReverseCode(curCode, size);
      if size <= LOOKUP_BITS {
        AddShort(s, rev, size);
      } else {
        treeNext' := InsertLong(rev, size, s, treeNext);
      }
    }

    method AddShort(s: nat, rev: nat, size: nat)
      requires Built(s) && s < |lens| && 1 <= size == lens[s] <= LOOKUP_BITS
      requires rev < Pow2(size) && ToBits(rev, size) == CodeBits(lens, s)
      modifies lookUp
      ensures Built(s + 1)
    {
      ghost var before := lookUp[..];
      FillLookup(rev, size, s);
      forall x | 0 <= x < LOOKUP_SIZE
        ensures lookUp[..][x] == if CodeBits(lens, s) <= ToBits(x, LOOKUP_BITS) then 512 * lens[s] + s else before[x]
      {
        StartsWithBits(x, rev, size);
      }
      ShortSymbol(before, lookUp[..], tree[..], lens, s, nodes);
    }

    /** The loop over all symbols. */
    method AddSymbols(next: array<nat>, tableSize: nat)
      requires Built(0) && nodes == map[] && tableSize == |lens| <= codeSize.Length
      requires forall i :: 0 <= i < tableSize ==> codeSize[i] == lens[i]
      requires Starts(next, 0) && Apart(next)
      modifies this`nodes, lookUp, tree, next
      ensures Built(tableSize)
    {
      var treeNext := -1;
      for s := 0 to tableSize
        invariant tableSize == |lens| && forall i :: 0 <= i < tableSize ==> codeSize[i] == lens[i]
        invariant Built(s) && treeNext == Pointer(2 * |nodes|) && Starts(next, s)
      {
        treeNext := AddSymbol(s, next, treeNext);
      }
    }

    /** Builds the table for the first `tableSize` code lengths, or refuses them. */
    method Build(tableSize: nat) returns (ok: bool)
      requires Valid() && tableSize <= MAX_SYMBOLS && SizesFit(codeSize[..tableSize])
      modifies this`lens, this`nodes, lookUp, tree
      ensures lens == codeSize[..tableSize] == old(codeSize[..tableSize])
      ensures ok <==> Decodable(lens)
      ensures ok ==> Built(tableSize)
    {
      lens := codeSize[..tableSize];
      nodes := map[];
      ClearArrays();
      var totalSyms := CountTotals(tableSize);
      var next, total, used := CodeStarts(totalSyms[..], lens);
      AcceptedIsDecodable(lens);
      if 0x1_0000 != total && used > 1 {
        return false;
      }
      NothingYet(lookUp[..], tree[..], lens);
      AddSymbols(next, tableSize);
      return true;
    }
  }
}
