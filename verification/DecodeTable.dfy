/**
 The decompressor's Huffman table: a 1024-entry lookup on the next ten bits, and
 a binary tree in an array for longer code words.
 */
module DecodeTable {
  import opened Bits
  import opened Canonical

  const MAX_SYMBOLS := 288
  const LOOKUP_BITS := 10
  const LOOKUP_SIZE := 1024
  const TREE_SIZE := 576

  // ---- Which bit strings are inner nodes of the code tree

  /** A proper prefix of some code word, at least as long as the lookup index. */
  ghost predicate Inner(lens: seq<nat>, p: seq<bool>) {
    |p| >= LOOKUP_BITS && exists sym :: InnerOf(lens, p, sym)
  }

  ghost predicate InnerOf(lens: seq<nat>, p: seq<bool>, sym: nat) {
    sym < |lens| && lens[sym] > |p| && p <= CodeBits(lens, sym)
  }

  /** At most one symbol has a code word. */
  ghost predicate Lonely(lens: seq<nat>) {
    SizesFit(lens) && forall a, b :: 0 <= a < |lens| && 0 <= b < |lens| && lens[a] >= 1 && lens[b] >= 1 ==> a == b
  }

  /** The lengths a decoder accepts. */
  ghost predicate Decodable(lens: seq<nat>) {
    Prefixable(lens) && (Full(lens) || Lonely(lens))
  }

  function Zeros(n: nat): (s: seq<bool>)
    ensures |s| == n && forall i :: 0 <= i < n ==> !s[i]
  {
    seq(n, _ => false)
  }

  /** The leftmost leaf under the right child of an inner node. */
  ghost function RightLeaf(lens: seq<nat>, p: seq<bool>): nat {
    DecodeSym(lens, p + [true] + Zeros(MAX_CODE_SIZE))
  }

  lemma RightLeafIsLeaf(lens: seq<nat>, p: seq<bool>)
    requires Full(lens) && Inner(lens, p)
    ensures var sym := RightLeaf(lens, p);
            && sym < |lens| && lens[sym] > |p|
            && CodeBits(lens, sym)[..|p|] == p && CodeBits(lens, sym)[|p|]
            && forall i :: |p| < i < lens[sym] ==> !CodeBits(lens, sym)[i]
  {
    var bits := p + [true] + Zeros(MAX_CODE_SIZE);
    FullCodeIsTotal(lens, bits);
    var sym := RightLeaf(lens, p);
    DecodeIffNext(lens, bits, sym);
    var o :| InnerOf(lens, p, o);
    var c := CodeBits(lens, sym);
    assert c == bits[..|c|];
    if |c| <= |p| {
      assert c <= p;
      assert c <= CodeBits(lens, o);
      CodesArePrefixFree(lens, sym, o);
    }
  }

  lemma RightLeafInjective(lens: seq<nat>, p: seq<bool>, q: seq<bool>)
    requires Full(lens) && Inner(lens, p) && Inner(lens, q) && RightLeaf(lens, p) == RightLeaf(lens, q)
    ensures p == q
  {
    RightLeafIsLeaf(lens, p);
    RightLeafIsLeaf(lens, q);
  }

  lemma {:induction false} InjectionSize(s: set<seq<bool>>, f: seq<bool> -> nat, n: nat)
    requires forall p :: p in s ==> f(p) < n
    requires forall p, q :: p in s && q in s && f(p) == f(q) ==> p == q
    ensures |s| <= n
    decreases n
  {
    if s != {} {
      if exists p :: p in s && f(p) == n - 1 {
        var p :| p in s && f(p) == n - 1;
        InjectionSize(s - {p}, f, n - 1);
      } else {
        InjectionSize(s, f, n - 1);
      }
    }
  }

  /** A decodable code never has more inner nodes than symbols, nor than the tree array holds. */
  lemma InnerCount(lens: seq<nat>, s: set<seq<bool>>)
    requires Decodable(lens) && |lens| <= MAX_SYMBOLS
    requires forall p :: p in s ==> Inner(lens, p)
    ensures |s| <= MAX_SYMBOLS
  {
    if Full(lens) {
      forall p | p in s ensures RightLeaf(lens, p) < |lens| {
        RightLeafIsLeaf(lens, p);
      }
      forall p, q | p in s && q in s && RightLeaf(lens, p) == RightLeaf(lens, q) ensures p == q {
        RightLeafInjective(lens, p, q);
      }
      InjectionSize(s, p => RightLeaf(lens, p), |lens|);
    } else {
      forall p, q | p in s && q in s && |p| == |q| ensures p == q {
        var a :| InnerOf(lens, p, a);
        var b :| InnerOf(lens, q, b);
      }
      forall p | p in s ensures |p| < MAX_SYMBOLS {
        var a :| InnerOf(lens, p, a);
      }
      InjectionSize(s, p => |p|, MAX_SYMBOLS);
    }
  }

  // ---- What the two arrays mean

  type Nodes = map<seq<bool>, nat>

  /** The first of the first `s` symbols with a short code word that `p` starts with; `s` if none. */
  function ShortSym(lens: seq<nat>, s: nat, p: seq<bool>): (sym: nat)
    requires s <= |lens|
    ensures sym <= s
    ensures sym < s ==> 1 <= lens[sym] <= LOOKUP_BITS && CodeBits(lens, sym) <= p
    ensures sym == s ==> forall i :: 0 <= i < s && 1 <= lens[i] <= LOOKUP_BITS ==> !(CodeBits(lens, i) <= p)
  {
    if s == 0 then 0 else
      var r := ShortSym(lens, s - 1, p);
      if r < s - 1 then r
      else if 1 <= lens[s - 1] <= LOOKUP_BITS && CodeBits(lens, s - 1) <= p then s - 1 else s
  }

  /** Pointers to tree nodes are stored as negative numbers. */
  function Pointer(base: nat): int {
    -1 - base
  }

  ghost function LookEntry(lens: seq<nat>, s: nat, nodes: Nodes, p: seq<bool>): int
    requires s <= |lens|
  {
    var sym := ShortSym(lens, s, p);
    if sym < s then 512 * lens[sym] + sym
    else if p in nodes then Pointer(nodes[p]) else 0
  }

  ghost predicate LongLeaf(lens: seq<nat>, s: nat, q: seq<bool>, sym: nat)
    requires s <= |lens|
  {
    sym < s && lens[sym] > LOOKUP_BITS && CodeBits(lens, sym) == q
  }

  /** What the slot for path `q` must contain. */
  ghost predicate TreeEntry(lens: seq<nat>, s: nat, nodes: Nodes, q: seq<bool>, v: int)
    requires s <= |lens|
  {
    && (q in nodes ==> v == Pointer(nodes[q]))
    && (forall sym :: LongLeaf(lens, s, q, sym) ==> v == sym)
    && (q !in nodes && (forall sym :: !LongLeaf(lens, s, q, sym)) ==> v == 0)
  }

  ghost predicate SlotOk(tree: seq<int>, lens: seq<nat>, s: nat, nodes: Nodes, p: seq<bool>, b: bool)
    requires s <= |lens| && p in nodes
  {
    nodes[p] + 1 < |tree| && TreeEntry(lens, s, nodes, p + [b], tree[nodes[p] + (if b then 1 else 0)])
  }

  ghost predicate PrefixClosed(nodes: Nodes) {
    forall p, b: bool :: |p| >= LOOKUP_BITS && p + [b] in nodes ==> p in nodes
  }

  ghost predicate AllInner(lens: seq<nat>, nodes: Nodes) {
    forall p {:trigger Inner(lens, p)} :: p in nodes ==> Inner(lens, p)
  }

  /** Every node owns two slots of its own. */
  ghost predicate OwnSlots(nodes: Nodes) {
    && (forall p :: p in nodes ==> nodes[p] % 2 == 0 && nodes[p] + 1 < 2 * |nodes|)
    && (forall p, q :: p in nodes && q in nodes && nodes[p] == nodes[q] ==> p == q)
  }

  ghost predicate NodesOk(lens: seq<nat>, nodes: Nodes) {
    AllInner(lens, nodes) && OwnSlots(nodes) && PrefixClosed(nodes)
  }

  /** All proper prefixes of the long code words seen so far are nodes. */
  ghost predicate Closed(lens: seq<nat>, s: nat, nodes: Nodes)
    requires s <= |lens|
  {
    forall sym, d :: 0 <= sym < s && LOOKUP_BITS <= d < lens[sym] ==> CodeBits(lens, sym)[..d] in nodes
  }

  ghost predicate LookOk(look: seq<int>, lens: seq<nat>, s: nat, nodes: Nodes)
    requires s <= |lens|
  {
    |look| == LOOKUP_SIZE && forall x :: 0 <= x < LOOKUP_SIZE ==>
        look[x] == LookEntry(lens, s, nodes, ToBits(x, LOOKUP_BITS))
  }

  ghost predicate SlotsOk(tree: seq<int>, lens: seq<nat>, s: nat, nodes: Nodes)
    requires s <= |lens|
  {
    forall p, b: bool :: p in nodes ==> SlotOk(tree, lens, s, nodes, p, b)
  }

  ghost predicate TreeOk(tree: seq<int>, lens: seq<nat>, s: nat, nodes: Nodes)
    requires s <= |lens|
  {
    && |tree| == TREE_SIZE && 2 * |nodes| <= TREE_SIZE && NodesOk(lens, nodes)
    && SlotsOk(tree, lens, s, nodes)
    && (forall i :: 2 * |nodes| <= i < TREE_SIZE ==> tree[i] == 0)
  }

  /** The state after the first `s` symbols. */
  ghost predicate Holds(look: seq<int>, tree: seq<int>, lens: seq<nat>, s: nat, nodes: Nodes) {
    // Written as an equation so that the verifier treats it as one fact.
    (&& s <= |lens| <= MAX_SYMBOLS && Decodable(lens)
     && LookOk(look, lens, s, nodes) && TreeOk(tree, lens, s, nodes) && Closed(lens, s, nodes)) == true
  }

  // ---- Reading the table

  /** Follows tree pointers from depth `d`: the symbol found and the bits used. */
  function Walk(tree: seq<int>, t: int, bits: seq<bool>, d: nat): (int, nat)
    decreases |bits| - d
  {
    if t >= 0 then (t, d)
    else if d >= |bits| || -t >= |tree| then (-1, d)
    else Walk(tree, tree[-t - 1 + (if bits[d] then 1 else 0)], bits, d + 1)
  }

  /** `TINFL_HUFF_DECODE` on bits already in the buffer. */
  function Lookup(look: seq<int>, tree: seq<int>, bits: seq<bool>): (int, nat)
    requires |look| == LOOKUP_SIZE && |bits| >= LOOKUP_BITS
  {
    Pow2Values();
    var t := look[FromBits(bits[..LOOKUP_BITS])];
    if t >= 0 then (t % 512, t / 512) else Walk(tree, t, bits, LOOKUP_BITS)
  }

  /** One step down from node `p` leads towards `sym`. */
  ghost predicate StepsTo(tree: seq<int>, lens: seq<nat>, nodes: Nodes, p: seq<bool>, b: bool, sym: nat)
    requires p in nodes && sym < |lens|
  {
    && nodes[p] + 1 < |tree|
    && var v := tree[nodes[p] + (if b then 1 else 0)];
    if |p| + 1 == lens[sym] then v == sym else p + [b] in nodes && v == Pointer(nodes[p + [b]])
  }

  ghost predicate Leads(tree: seq<int>, lens: seq<nat>, nodes: Nodes, sym: nat)
    requires sym < |lens|
  {
    forall p, b: bool :: p in nodes && p + [b] <= CodeBits(lens, sym) ==> StepsTo(tree, lens, nodes, p, b, sym)
  }

  lemma TreeLeads(tree: seq<int>, lens: seq<nat>, nodes: Nodes, sym: nat)
    requires TreeOk(tree, lens, |lens|, nodes) && Closed(lens, |lens|, nodes) && sym < |lens|
    ensures Leads(tree, lens, nodes, sym)
  {
    forall p, b: bool | p in nodes && p + [b] <= CodeBits(lens, sym)
      ensures StepsTo(tree, lens, nodes, p, b, sym)
    {
      assert SlotOk(tree, lens, |lens|, nodes, p, b) && Inner(lens, p);
      var c := CodeBits(lens, sym);
      if |p| + 1 == lens[sym] {
        assert LongLeaf(lens, |lens|, p + [b], sym);
      } else {
        assert c[..|p| + 1] == p + [b];
      }
    }
  }

  lemma {:induction false} WalkFinds(tree: seq<int>, lens: seq<nat>, nodes: Nodes, bits: seq<bool>, d: nat, sym: nat)
    requires sym < |lens| && Leads(tree, lens, nodes, sym) && CodeBits(lens, sym) <= bits
    requires LOOKUP_BITS <= d < lens[sym] && bits[..d] in nodes
    ensures Walk(tree, Pointer(nodes[bits[..d]]), bits, d) == (sym, lens[sym])
    decreases lens[sym] - d
  {
    var p, b := bits[..d], bits[d];
    TakeOneMore(bits, d, CodeBits(lens, sym));
    assert StepsTo(tree, lens, nodes, p, b, sym);
    WalkStep(tree, nodes[p], bits, d);
    if d + 1 < lens[sym] {
      WalkFinds(tree, lens, nodes, bits, d + 1, sym);
    } else {
      assert Walk(tree, sym, bits, d + 1) == (sym, d + 1);
    }
  }

  lemma TakeOneMore(bits: seq<bool>, d: nat, c: seq<bool>)
    requires d < |c| && c <= bits
    ensures bits[..d + 1] == bits[..d] + [bits[d]] && bits[..d + 1] <= c
  {
  }

  lemma WalkStep(tree: seq<int>, base: nat, bits: seq<bool>, d: nat)
    requires base + 1 < |tree| && d < |bits|
    ensures Walk(tree, Pointer(base), bits, d) == Walk(tree, tree[base + (if bits[d] then 1 else 0)], bits, d + 1)
  {
  }

  lemma EntryFor(look: seq<int>, lens: seq<nat>, nodes: Nodes, bits: seq<bool>)
    requires LookOk(look, lens, |lens|, nodes) && |bits| >= LOOKUP_BITS
    ensures FromBits(bits[..LOOKUP_BITS]) < LOOKUP_SIZE
    ensures look[FromBits(bits[..LOOKUP_BITS])] == LookEntry(lens, |lens|, nodes, bits[..LOOKUP_BITS])
  {
    Pow2Values();
    ToFromBits(bits[..LOOKUP_BITS]);
  }

  lemma ShortEntry(lens: seq<nat>, nodes: Nodes, bits: seq<bool>, sym: nat)
    requires Prefixable(lens) && |bits| >= LOOKUP_BITS && Next(lens, bits, sym) && lens[sym] <= LOOKUP_BITS
    ensures LookEntry(lens, |lens|, nodes, bits[..LOOKUP_BITS]) == 512 * lens[sym] + sym
  {
    var p := bits[..LOOKUP_BITS];
    assert CodeBits(lens, sym) <= p;
    var short := ShortSym(lens, |lens|, p);
    assert CodeBits(lens, short) <= bits;
    NextIsUnique(lens, bits, sym, short);
  }

  lemma LongEntry(lens: seq<nat>, nodes: Nodes, bits: seq<bool>, sym: nat)
    requires Prefixable(lens) && |bits| >= LOOKUP_BITS && Next(lens, bits, sym) && lens[sym] > LOOKUP_BITS
    requires Closed(lens, |lens|, nodes)
    ensures bits[..LOOKUP_BITS] in nodes
    ensures LookEntry(lens, |lens|, nodes, bits[..LOOKUP_BITS]) == Pointer(nodes[bits[..LOOKUP_BITS]])
  {
    var p := bits[..LOOKUP_BITS];
    assert CodeBits(lens, sym)[..LOOKUP_BITS] == p;
    var short := ShortSym(lens, |lens|, p);
    if short < |lens| {
      assert CodeBits(lens, short) <= bits;
      NextIsUnique(lens, bits, sym, short);
    }
  }

  /** The table decodes the canonical code. */
  lemma LookupDecodes(look: seq<int>, tree: seq<int>, lens: seq<nat>, nodes: Nodes, bits: seq<bool>, sym: nat)
    requires Holds(look, tree, lens, |lens|, nodes)
    requires |bits| >= LOOKUP_BITS && Next(lens, bits, sym)
    ensures Lookup(look, tree, bits) == (sym, lens[sym])
  {
    EntryFor(look, lens, nodes, bits);
    if lens[sym] <= LOOKUP_BITS {
      ShortEntry(lens, nodes, bits, sym);
      LookupShort(look, tree, bits, lens[sym], sym);
    } else {
      LongLookup(look, tree, lens, nodes, bits, sym);
    }
  }

  /** With a full code, fifteen bits are always enough for the table to find the one symbol that comes next. */
  lemma LookupTotal(look: seq<int>, tree: seq<int>, lens: seq<nat>, nodes: Nodes, bits: seq<bool>) returns (sym: nat)
    requires Holds(look, tree, lens, |lens|, nodes) && Full(lens) && |bits| >= MAX_CODE_SIZE
    ensures Next(lens, bits, sym) && Lookup(look, tree, bits) == (sym, lens[sym])
    ensures forall other :: Next(lens, bits, other) ==> other == sym
  {
    FullCodeIsTotal(lens, bits);
    sym := DecodeSym(lens, bits);
    DecodeIffNext(lens, bits, sym);
    LookupDecodes(look, tree, lens, nodes, bits, sym);
    forall other | Next(lens, bits, other) ensures other == sym {
      NextIsUnique(lens, bits, other, sym);
    }
  }

  lemma LongLookup(look: seq<int>, tree: seq<int>, lens: seq<nat>, nodes: Nodes, bits: seq<bool>, sym: nat)
    requires |look| == LOOKUP_SIZE && Prefixable(lens)
    requires TreeOk(tree, lens, |lens|, nodes) && Closed(lens, |lens|, nodes)
    requires |bits| >= LOOKUP_BITS && Next(lens, bits, sym) && lens[sym] > LOOKUP_BITS
    requires FromBits(bits[..LOOKUP_BITS]) < LOOKUP_SIZE
    requires look[FromBits(bits[..LOOKUP_BITS])] == LookEntry(lens, |lens|, nodes, bits[..LOOKUP_BITS])
    ensures Lookup(look, tree, bits) == (sym, lens[sym])
  {
    LongEntry(lens, nodes, bits, sym);
    LookupLong(look, tree, bits, nodes[bits[..LOOKUP_BITS]]);
    TreeLeads(tree, lens, nodes, sym);
    WalkFinds(tree, lens, nodes, bits, LOOKUP_BITS, sym);
  }

  lemma LookupShort(look: seq<int>, tree: seq<int>, bits: seq<bool>, len: nat, sym: nat)
    requires |look| == LOOKUP_SIZE && |bits| >= LOOKUP_BITS && sym < 512
    requires FromBits(bits[..LOOKUP_BITS]) < LOOKUP_SIZE
    requires look[FromBits(bits[..LOOKUP_BITS])] == 512 * len + sym
    ensures Lookup(look, tree, bits) == (sym, len)
  {
    DivMod512(len, sym);
  }

  lemma LookupLong(look: seq<int>, tree: seq<int>, bits: seq<bool>, base: nat)
    requires |look| == LOOKUP_SIZE && |bits| >= LOOKUP_BITS
    requires FromBits(bits[..LOOKUP_BITS]) < LOOKUP_SIZE
    requires look[FromBits(bits[..LOOKUP_BITS])] == Pointer(base)
    ensures Lookup(look, tree, bits) == Walk(tree, Pointer(base), bits, LOOKUP_BITS)
  {
  }

  lemma DivMod512(l: nat, sym: nat)
    requires sym < 512
    ensures (512 * l + sym) / 512 == l && (512 * l + sym) % 512 == sym
  {
  }

  // ---- Building the table

  lemma NothingYet(look: seq<int>, tree: seq<int>, lens: seq<nat>)
    requires |lens| <= MAX_SYMBOLS && Decodable(lens)
    requires |look| == LOOKUP_SIZE && forall x :: 0 <= x < LOOKUP_SIZE ==> look[x] == 0
    requires |tree| == TREE_SIZE && forall i :: 0 <= i < TREE_SIZE ==> tree[i] == 0
    ensures Holds(look, tree, lens, 0, map[])
  {
  }

  /** Symbols without a long code word do not touch the tree. */
  lemma TreeStays(tree: seq<int>, lens: seq<nat>, s: nat, t: nat, nodes: Nodes)
    requires t == s + 1 <= |lens| && lens[s] <= LOOKUP_BITS
    requires TreeOk(tree, lens, s, nodes) && Closed(lens, s, nodes)
    ensures TreeOk(tree, lens, t, nodes) && Closed(lens, t, nodes)
  {
    forall p, b: bool | p in nodes ensures SlotOk(tree, lens, t, nodes, p, b) {
      assert SlotOk(tree, lens, s, nodes, p, b);
      SlotStays(tree, lens, s, nodes, p, b);
    }
  }

  lemma SlotStays(tree: seq<int>, lens: seq<nat>, s: nat, nodes: Nodes, p: seq<bool>, b: bool)
    requires s < |lens| && p in nodes && SlotOk(tree, lens, s, nodes, p, b)
    requires lens[s] <= LOOKUP_BITS || CodeBits(lens, s) != p + [b]
    ensures SlotOk(tree, lens, s + 1, nodes, p, b)
  {
    SameLongLeaves(lens, s, s + 1, p + [b]);
  }

  lemma SameLongLeaves(lens: seq<nat>, s: nat, t: nat, q: seq<bool>)
    requires t == s + 1 <= |lens| && (lens[s] <= LOOKUP_BITS || CodeBits(lens, s) != q)
    ensures forall sym :: LongLeaf(lens, t, q, sym) <==> LongLeaf(lens, s, q, sym)
  {
  }

  /** A symbol without a code word leaves the table as it is. */
  lemma SkipSymbol(look: seq<int>, tree: seq<int>, lens: seq<nat>, s: nat, nodes: Nodes)
    requires Holds(look, tree, lens, s, nodes) && s < |lens| && lens[s] == 0
    ensures Holds(look, tree, lens, s + 1, nodes)
  {
    TreeStays(tree, lens, s, s + 1, nodes);
    LookStays(look, lens, s, s + 1, nodes);
  }

  lemma LookStays(look: seq<int>, lens: seq<nat>, s: nat, t: nat, nodes: Nodes)
    requires t == s + 1 <= |lens| && (lens[s] == 0 || lens[s] > LOOKUP_BITS)
    requires LookOk(look, lens, s, nodes)
    ensures LookOk(look, lens, t, nodes)
  {
  }

  lemma InnerHasNoCode(lens: seq<nat>, q: seq<bool>, sym: nat)
    requires Prefixable(lens) && Inner(lens, q) && sym < |lens| && lens[sym] >= 1
    ensures !(CodeBits(lens, sym) <= q)
  {
    var o: nat :| InnerOf(lens, q, o);
    if CodeBits(lens, sym) <= q {
      assert CodeBits(lens, sym) <= CodeBits(lens, o);
      assert lens[sym] <= |q| < lens[o];
      CodesArePrefixFree(lens, sym, o);
    }
  }

  /** A short code word fills every lookup slot whose index starts with it. */
  lemma ShortSymbol(look: seq<int>, look': seq<int>, tree: seq<int>, lens: seq<nat>, s: nat, nodes: Nodes)
    requires Holds(look, tree, lens, s, nodes) && s < |lens| && 1 <= lens[s] <= LOOKUP_BITS
    requires |look'| == LOOKUP_SIZE
    requires forall x :: 0 <= x < LOOKUP_SIZE ==>
               look'[x] == if CodeBits(lens, s) <= ToBits(x, LOOKUP_BITS) then 512 * lens[s] + s else look[x]
    ensures Holds(look', tree, lens, s + 1, nodes)
  {
    TreeStays(tree, lens, s, s + 1, nodes);
    LookFilled(look, look', lens, s, s + 1, nodes);
  }

  lemma LookFilled(look: seq<int>, look': seq<int>, lens: seq<nat>, s: nat, t: nat, nodes: Nodes)
    requires t == s + 1 <= |lens| && LookOk(look, lens, s, nodes) && Prefixable(lens) && 1 <= lens[s] <= LOOKUP_BITS
    requires |look'| == LOOKUP_SIZE
    requires forall x :: 0 <= x < LOOKUP_SIZE ==>
               look'[x] == if CodeBits(lens, s) <= ToBits(x, LOOKUP_BITS) then 512 * lens[s] + s else look[x]
    ensures LookOk(look', lens, t, nodes)
  {
    forall x | 0 <= x < LOOKUP_SIZE ensures look'[x] == LookEntry(lens, t, nodes, ToBits(x, LOOKUP_BITS)) {
      ShortEntryNew(look, lens, s, nodes, x);
    }
  }

  lemma ShortEntryNew(look: seq<int>, lens: seq<nat>, s: nat, nodes: Nodes, x: nat)
    requires s < |lens| && LookOk(look, lens, s, nodes) && Prefixable(lens) && 1 <= lens[s] <= LOOKUP_BITS
    requires x < LOOKUP_SIZE
    ensures LookEntry(lens, s + 1, nodes, ToBits(x, LOOKUP_BITS))
         == if CodeBits(lens, s) <= ToBits(x, LOOKUP_BITS) then 512 * lens[s] + s else look[x]
  {
    var p := ToBits(x, LOOKUP_BITS);
    var r := ShortSym(lens, s, p);
    if r < s && CodeBits(lens, s) <= p {
      NextIsUnique(lens, p, r, s);
    }
  }

  /** The zero test that decides whether to make a node. */
  lemma RootTest(look: seq<int>, tree: seq<int>, lens: seq<nat>, s: nat, nodes: Nodes, q: seq<bool>)
    requires Holds(look, tree, lens, s, nodes) && |q| == LOOKUP_BITS && Inner(lens, q)
    ensures FromBits(q) < LOOKUP_SIZE
    ensures look[FromBits(q)] == if q in nodes then Pointer(nodes[q]) else 0
  {
    Pow2Values();
    ToFromBits(q);
    var r := ShortSym(lens, s, q);
    if r < s {
      InnerHasNoCode(lens, q, r);
    }
  }

  lemma ChildTest(look: seq<int>, tree: seq<int>, lens: seq<nat>, s: nat, nodes: Nodes, p: seq<bool>, b: bool)
    requires Holds(look, tree, lens, s, nodes) && p in nodes && Inner(lens, p + [b])
    ensures nodes[p] + 1 < TREE_SIZE
    ensures tree[nodes[p] + (if b then 1 else 0)] == if p + [b] in nodes then Pointer(nodes[p + [b]]) else 0
  {
    assert SlotOk(tree, lens, s, nodes, p, b);
    forall sym | LongLeaf(lens, s, p + [b], sym) ensures false {
      InnerHasNoCode(lens, p + [b], sym);
    }
  }

  /** A new node gets the next two free slots. */
  lemma NewNodes(lens: seq<nat>, nodes: Nodes, q: seq<bool>)
    requires Decodable(lens) && |lens| <= MAX_SYMBOLS && NodesOk(lens, nodes)
    requires Inner(lens, q) && q !in nodes && (|q| == LOOKUP_BITS || q[..|q| - 1] in nodes)
    ensures var nodes' := nodes[q := 2 * |nodes|];
            NodesOk(lens, nodes') && |nodes'| == |nodes| + 1 <= MAX_SYMBOLS
  {
    var nodes' := nodes[q := 2 * |nodes|];
    assert nodes'.Keys == nodes.Keys + {q};
    assert |nodes'.Keys| == |nodes.Keys| + 1;
    OneMoreNode(nodes, q);
    InnerCount(lens, nodes'.Keys);
  }

  lemma OneMoreNode(nodes: Nodes, q: seq<bool>)
    requires OwnSlots(nodes) && PrefixClosed(nodes) && q !in nodes && (|q| <= LOOKUP_BITS || q[..|q| - 1] in nodes)
    ensures var nodes' := nodes[q := 2 * |nodes|];
            OwnSlots(nodes') && PrefixClosed(nodes') && |nodes'| == |nodes| + 1
  {
    MapGrows(nodes, q, 2 * |nodes|);
  }

  lemma MapGrows(nodes: Nodes, q: seq<bool>, v: nat)
    requires q !in nodes
    ensures |nodes[q := v]| == |nodes| + 1
  {
    var nodes' := nodes[q := v];
    assert nodes'.Keys == nodes.Keys + {q};
    assert |nodes'| == |nodes'.Keys| == |nodes.Keys| + 1;
  }

  lemma FreshSlots(tree: seq<int>, lens: seq<nat>, s: nat, nodes: Nodes, q: seq<bool>, b: bool)
    requires s <= |lens| && |q| >= LOOKUP_BITS && q !in nodes && PrefixClosed(nodes) && Closed(lens, s, nodes)
    requires |tree| == TREE_SIZE && 2 * |nodes| + 1 < TREE_SIZE
    requires forall i :: 2 * |nodes| <= i < TREE_SIZE ==> tree[i] == 0
    ensures SlotOk(tree, lens, s, nodes[q := 2 * |nodes|], q, b)
  {
    var c := q + [b];
    assert c[..|c| - 1] == q;
    assert c !in nodes[q := 2 * |nodes|];
    forall sym ensures !LongLeaf(lens, s, c, sym) {
      NoLeafBelow(lens, s, nodes, q, b, sym);
    }
  }

  lemma NoLeafBelow(lens: seq<nat>, s: nat, nodes: Nodes, q: seq<bool>, b: bool, sym: nat)
    requires s <= |lens| && |q| >= LOOKUP_BITS && q !in nodes && Closed(lens, s, nodes)
    ensures !LongLeaf(lens, s, q + [b], sym)
  {
    assert (q + [b])[..|q|] == q;
  }

  lemma OldSlots(tree: seq<int>, tree': seq<int>, lens: seq<nat>, s: nat, nodes: Nodes, q: seq<bool>, p: seq<bool>,
                 b: bool)
    requires s <= |lens| && Prefixable(lens) && Inner(lens, q) && q !in nodes && p in nodes
        && SlotOk(tree, lens, s, nodes, p, b)
    requires nodes[p] + 1 < |tree'|
    requires var i := nodes[p] + (if b then 1 else 0);
             tree'[i] == if p + [b] == q then Pointer(2 * |nodes|) else tree[i]
    ensures SlotOk(tree', lens, s, nodes[q := 2 * |nodes|], p, b)
  {
    forall sym | LongLeaf(lens, s, q, sym) ensures false {
      InnerHasNoCode(lens, q, sym);
    }
  }

  lemma NewSlots(tree: seq<int>, tree': seq<int>, lens: seq<nat>, s: nat, nodes: Nodes, q: seq<bool>)
    requires s <= |lens| <= MAX_SYMBOLS && Decodable(lens) && TreeOk(tree, lens, s, nodes) && Closed(lens, s, nodes)
    requires Inner(lens, q) && q !in nodes && (|q| == LOOKUP_BITS || q[..|q| - 1] in nodes)
    requires |tree'| == TREE_SIZE && forall i :: 2 * |nodes| <= i < TREE_SIZE ==> tree'[i] == 0
    requires forall p, b: bool :: p in nodes ==> Rewired(tree, tree', nodes, q, p, b)
    ensures TreeOk(tree', lens, s, nodes[q := 2 * |nodes|]) && Closed(lens, s, nodes[q := 2 * |nodes|])
  {
    var nodes' := nodes[q := 2 * |nodes|];
    NewNodes(lens, nodes, q);
    forall p, b: bool | p in nodes' ensures SlotOk(tree', lens, s, nodes', p, b) {
      if p == q {
        FreshSlots(tree', lens, s, nodes, q, b);
      } else {
        assert SlotOk(tree, lens, s, nodes, p, b);
        assert Rewired(tree, tree', nodes, q, p, b);
        OldSlots(tree, tree', lens, s, nodes, q, p, b);
      }
    }
  }

  /** Only the slot for path `q` changes, to point at the new node. */
  ghost predicate Rewired(tree: seq<int>, tree': seq<int>, nodes: Nodes, q: seq<bool>, p: seq<bool>, b: bool)
    requires p in nodes
  {
    && nodes[p] + 1 < |tree| == |tree'|
    && var i := nodes[p] + (if b then 1 else 0);
    tree'[i] == if p + [b] == q then Pointer(2 * |nodes|) else tree[i]
  }

  /** Adds the root of a subtree, reached from the lookup array. */
  lemma AddRoot(look: seq<int>, tree: seq<int>, lens: seq<nat>, s: nat, nodes: Nodes, q: seq<bool>)
    requires Holds(look, tree, lens, s, nodes) && |q| == LOOKUP_BITS && Inner(lens, q) && q !in nodes
    ensures FromBits(q) < LOOKUP_SIZE
    ensures Holds(look[FromBits(q) := Pointer(2 * |nodes|)], tree, lens, s, nodes[q := 2 * |nodes|])
  {
    Pow2Values();
    forall p, b: bool | p in nodes ensures Rewired(tree, tree, nodes, q, p, b) {
      assert SlotOk(tree, lens, s, nodes, p, b);
      assert |p| >= LOOKUP_BITS by { assert Inner(lens, p); }
    }
    NewSlots(tree, tree, lens, s, nodes, q);
    RootEntries(look, lens, s, nodes, q);
  }

  lemma RootEntries(look: seq<int>, lens: seq<nat>, s: nat, nodes: Nodes, q: seq<bool>)
    requires s <= |lens| && LookOk(look, lens, s, nodes) && Prefixable(lens) && |q| == LOOKUP_BITS && Inner(lens, q)
        && q !in nodes
    ensures FromBits(q) < LOOKUP_SIZE
    ensures LookOk(look[FromBits(q) := Pointer(2 * |nodes|)], lens, s, nodes[q := 2 * |nodes|])
  {
    Pow2Values();
    var nodes' := nodes[q := 2 * |nodes|];
    var look' := look[FromBits(q) := Pointer(2 * |nodes|)];
    forall x | 0 <= x < LOOKUP_SIZE ensures look'[x] == LookEntry(lens, s, nodes', ToBits(x, LOOKUP_BITS)) {
      RootEntry(look, lens, s, nodes, q, x);
    }
  }

  lemma RootEntry(look: seq<int>, lens: seq<nat>, s: nat, nodes: Nodes, q: seq<bool>, x: nat)
    requires s <= |lens| && LookOk(look, lens, s, nodes) && Prefixable(lens) && |q| == LOOKUP_BITS && Inner(lens, q)
        && q !in nodes
    requires x < LOOKUP_SIZE
    ensures LookEntry(lens, s, nodes[q := 2 * |nodes|], ToBits(x, LOOKUP_BITS))
         == if x == FromBits(q) then Pointer(2 * |nodes|) else look[x]
  {
    Pow2Values();
    ToFromBits(q);
    FromToBits(x, LOOKUP_BITS);
    var r := ShortSym(lens, s, q);
    if r < s {
      InnerHasNoCode(lens, q, r);
    }
  }

  /** Adds the child `b` of node `p`. */
  lemma AddChild(look: seq<int>, tree: seq<int>, lens: seq<nat>, s: nat, nodes: Nodes, p: seq<bool>, b: bool, i: nat)
    requires Holds(look, tree, lens, s, nodes) && p in nodes && Inner(lens, p + [b]) && p + [b] !in nodes
    requires i == nodes[p] + (if b then 1 else 0)
    ensures |tree| == TREE_SIZE && i < TREE_SIZE
    ensures Holds(look, tree[i := Pointer(2 * |nodes|)], lens, s, nodes[p + [b] := 2 * |nodes|])
  {
    var q := p + [b];
    assert q[..|q| - 1] == p;
    assert Inner(lens, p);
    var tree' := tree[i := Pointer(2 * |nodes|)];
    forall o, c: bool | o in nodes ensures Rewired(tree, tree', nodes, q, o, c) {
      assert SlotOk(tree, lens, s, nodes, o, c);
      SlotRewired(tree, nodes, p, b, o, c);
    }
    NewSlots(tree, tree', lens, s, nodes, q);
    LookKeeps(look, lens, s, nodes, q);
  }

  lemma SlotRewired(tree: seq<int>, nodes: Nodes, p: seq<bool>, b: bool, o: seq<bool>, c: bool)
    requires OwnSlots(nodes) && p in nodes && o in nodes && nodes[p] + 1 < |tree| && nodes[o] + 1 < |tree|
    ensures Rewired(tree, tree[nodes[p] + (if b then 1 else 0) := Pointer(2 * |nodes|)], nodes, p + [b], o, c)
  {
    SlotsDiffer(nodes, p, b, o, c);
  }

  lemma LookKeeps(look: seq<int>, lens: seq<nat>, s: nat, nodes: Nodes, q: seq<bool>)
    requires s <= |lens| && LookOk(look, lens, s, nodes) && |q| > LOOKUP_BITS
    ensures LookOk(look, lens, s, nodes[q := 2 * |nodes|])
  {
  }

  lemma SlotsDiffer(nodes: Nodes, p: seq<bool>, b: bool, o: seq<bool>, c: bool)
    requires OwnSlots(nodes) && p in nodes && o in nodes
    ensures nodes[p] + (if b then 1 else 0) == nodes[o] + (if c then 1 else 0) <==> p + [b] == o + [c]
  {
    if p + [b] == o + [c] {
      assert (p + [b])[..|p|] == p && (o + [c])[..|o|] == o;
      assert (p + [b])[|p|] == b && (o + [c])[|o|] == c;
    }
  }

  lemma {:induction false} PrefixesAreNodes(nodes: Nodes, p: seq<bool>, d: nat)
    requires PrefixClosed(nodes) && p in nodes && LOOKUP_BITS <= d <= |p|
    ensures p[..d] in nodes
    decreases |p| - d
  {
    if d == |p| {
      assert p[..d] == p;
    } else {
      PrefixesAreNodes(nodes, p, d + 1);
      var q, b := p[..d], p[d];
      assert p[..d + 1] == q + [b];
      assert q + [b] in nodes;
    }
  }

  /** Completes a long code word: its last bit selects the slot for the symbol. */
  lemma SetLeaf(look: seq<int>, tree: seq<int>, lens: seq<nat>, s: nat, nodes: Nodes, p: seq<bool>, b: bool, i: nat)
    requires Holds(look, tree, lens, s, nodes) && s < |lens| && lens[s] > LOOKUP_BITS
    requires p in nodes && CodeBits(lens, s) == p + [b] && i == nodes[p] + (if b then 1 else 0)
    ensures |look| == LOOKUP_SIZE && |tree| == TREE_SIZE && i < TREE_SIZE
    ensures Holds(look, tree[i := s], lens, s + 1, nodes)
  {
    LookStays(look, lens, s, s + 1, nodes);
    LeafInTree(tree, lens, s, s + 1, nodes, p, b);
    PrefixesSeen(lens, s, nodes, p, b);
  }

  lemma LeafInTree(tree: seq<int>, lens: seq<nat>, s: nat, t: nat, nodes: Nodes, p: seq<bool>, b: bool)
    requires t == s + 1 <= |lens| && TreeOk(tree, lens, s, nodes) && lens[s] > LOOKUP_BITS && Prefixable(lens)
    requires p in nodes && CodeBits(lens, s) == p + [b]
    ensures nodes[p] + 1 < TREE_SIZE
    ensures TreeOk(tree[nodes[p] + (if b then 1 else 0) := s], lens, t, nodes)
  {
    var tree' := tree[nodes[p] + (if b then 1 else 0) := s];
    forall o, c: bool | o in nodes ensures SlotOk(tree', lens, t, nodes, o, c) {
      assert SlotOk(tree, lens, s, nodes, o, c);
      LeafAt(tree, lens, s, nodes, p, b, o, c);
    }
  }

  lemma LeafAt(tree: seq<int>, lens: seq<nat>, s: nat, nodes: Nodes, p: seq<bool>, b: bool, o: seq<bool>, c: bool)
    requires s < |lens| && |tree| == TREE_SIZE && NodesOk(lens, nodes) && lens[s] > LOOKUP_BITS && Prefixable(lens)
    requires p in nodes && CodeBits(lens, s) == p + [b] && nodes[p] + 1 < TREE_SIZE
    requires o in nodes && SlotOk(tree, lens, s, nodes, o, c)
    ensures SlotOk(tree[nodes[p] + (if b then 1 else 0) := s], lens, s + 1, nodes, o, c)
  {
    SlotsDiffer(nodes, p, b, o, c);
    if p + [b] == o + [c] {
      LeafSlot(lens, s, nodes, p + [b]);
    } else {
      SlotStays(tree, lens, s, nodes, o, c);
    }
  }

  lemma PrefixesSeen(lens: seq<nat>, s: nat, nodes: Nodes, p: seq<bool>, b: bool)
    requires s < |lens| && Closed(lens, s, nodes) && PrefixClosed(nodes) && p in nodes && CodeBits(lens, s) == p + [b]
    ensures Closed(lens, s + 1, nodes)
  {
    forall sym, d | 0 <= sym < s + 1 && LOOKUP_BITS <= d < lens[sym] ensures CodeBits(lens, sym)[..d] in nodes {
      if sym == s {
        PrefixesAreNodes(nodes, p, d);
        assert (p + [b])[..d] == p[..d];
      }
    }
  }

  lemma LeafSlot(lens: seq<nat>, s: nat, nodes: Nodes, q: seq<bool>)
    requires s < |lens| && lens[s] > LOOKUP_BITS && CodeBits(lens, s) == q && Prefixable(lens) && NodesOk(lens, nodes)
    ensures TreeEntry(lens, s + 1, nodes, q, s)
  {
    if q in nodes {
      InnerHasNoCode(lens, q, s);
    }
    var t := s + 1;
    forall sym | LongLeaf(lens, t, q, sym) ensures sym == s {
      NextIsUnique(lens, q, sym, s);
    }
    assert LongLeaf(lens, t, q, s);
  }

  // ---- Accepting or refusing the lengths

  /** `used_syms`: the symbols of lengths 1 to `l` among the first `n`. */
  function UsedUpTo(lens: seq<nat>, n: nat, l: nat): nat
    requires n <= |lens|
    decreases l, lens
  {
    if l == 0 then 0 else UsedUpTo(lens, n, l - 1) + CountUpTo(lens, n, l)
  }

  lemma {:induction false} UsedSnoc(lens: seq<nat>, n: nat, l: nat)
    requires n < |lens|
    ensures UsedUpTo(lens, n + 1, l) == UsedUpTo(lens, n, l) + (if 1 <= lens[n] <= l then 1 else 0)
  {
    if l > 0 {
      UsedSnoc(lens, n, l - 1);
    }
  }

  lemma {:induction false} UsedNone(lens: seq<nat>, n: nat, l: nat)
    requires n <= |lens| && forall i :: 0 <= i < n ==> lens[i] == 0 || lens[i] > l
    ensures UsedUpTo(lens, n, l) == 0
  {
    if n == 0 {
      UsedOfNothing(lens, l);
    } else {
      UsedNone(lens, n - 1, l);
      UsedSnoc(lens, n - 1, l);
    }
  }

  lemma {:induction false} UsedOfNothing(lens: seq<nat>, l: nat)
    ensures UsedUpTo(lens, 0, l) == 0
  {
    if l > 0 {
      UsedOfNothing(lens, l - 1);
    }
  }

  lemma {:induction false} UsedAtLeast(lens: seq<nat>, n: nat, a: nat)
    requires a < n <= |lens| && 1 <= lens[a] <= MAX_CODE_SIZE
    ensures UsedUpTo(lens, n, MAX_CODE_SIZE) >= 1
  {
    UsedSnoc(lens, n - 1, MAX_CODE_SIZE);
    if a < n - 1 {
      UsedAtLeast(lens, n - 1, a);
    }
  }

  /** More than one symbol is used exactly when two different ones are. */
  lemma {:induction false} UsedMeansLonely(lens: seq<nat>, n: nat)
    requires n <= |lens| && SizesFit(lens)
    ensures UsedUpTo(lens, n, MAX_CODE_SIZE) <= 1 <==>
            forall a, b :: 0 <= a < n && 0 <= b < n && lens[a] >= 1 && lens[b] >= 1 ==> a == b
  {
    if n == 0 {
      UsedOfNothing(lens, MAX_CODE_SIZE);
    } else {
      UsedMeansLonely(lens, n - 1);
      UsedSnoc(lens, n - 1, MAX_CODE_SIZE);
      if lens[n - 1] >= 1 {
        if a :| 0 <= a < n - 1 && lens[a] >= 1 {
          UsedAtLeast(lens, n - 1, a);
        } else {
          UsedNone(lens, n - 1, MAX_CODE_SIZE);
        }
      }
    }
  }

  /** A lone code word always fits. */
  lemma {:induction false} FewFit(lens: seq<nat>, l: nat)
    requires l >= 1 && UsedUpTo(lens, |lens|, l) <= 1
    ensures Filled(lens, l) <= Pow2(l - 1)
    ensures UsedUpTo(lens, |lens|, l) == 0 ==> Filled(lens, l) == 0
  {
    if l == 1 {
      assert UsedUpTo(lens, |lens|, 0) == 0;
    } else {
      FewFit(lens, l - 1);
      assert Pow2(l - 1) == 2 * Pow2(l - 2);
    }
  }

  /** The check made before the table is filled. */
  lemma AcceptedIsDecodable(lens: seq<nat>)
    requires SizesFit(lens)
    ensures 2 * Filled(lens, MAX_CODE_SIZE) == 0x1_0000 || UsedUpTo(lens, |lens|, MAX_CODE_SIZE) <= 1 <==>
        Decodable(lens)
  {
    Pow2Values();
    UsedMeansLonely(lens, |lens|);
    if UsedUpTo(lens, |lens|, MAX_CODE_SIZE) <= 1 {
      FewFit(lens, MAX_CODE_SIZE);
      assert Pow2(14) <= Pow2(15);
    }
  }

  /** Where the walk stands: at node `q`, with the bits `rest` to come above the lowest of `r`. */
  ghost predicate OnPath(q: seq<bool>, rest: seq<bool>, treeCur: int, r: nat, nodes: Nodes) {
    q in nodes && treeCur == Pointer(nodes[q]) && ToBits(r / 2, |rest|) == rest
  }

  lemma NextBit(rest: seq<bool>, r: nat)
    requires rest != [] && ToBits(r / 2, |rest|) == rest
    ensures r / 2 % 2 == (if rest[0] then 1 else 0) && ToBits(r / 2 / 2, |rest[1..]|) == rest[1..]
  {
    assert ToBits(r / 2, |rest|)[0] == (r / 2 % 2 == 1);
    assert ToBits(r / 2, |rest|)[1..] == ToBits(r / 2 / 2, |rest| - 1);
  }

  /** What the next bit of the path leads to. */
  lemma NextSlot(look: seq<int>, tree: seq<int>, lens: seq<nat>, s: nat, nodes: Nodes, p: seq<bool>, b: bool)
    requires Holds(look, tree, lens, s, nodes) && s < |lens| && p in nodes
    requires |p| >= LOOKUP_BITS && |p| + 1 < lens[s] && p + [b] <= CodeBits(lens, s)
    ensures Inner(lens, p + [b]) && |tree| == TREE_SIZE
    ensures nodes[p] + 1 < TREE_SIZE
    ensures tree[nodes[p] + (if b then 1 else 0)] == if p + [b] in nodes then Pointer(nodes[p + [b]]) else 0
  {
    assert InnerOf(lens, p + [b], s);
    ChildTest(look, tree, lens, s, nodes, p, b);
  }

  lemma PathIsInner(lens: seq<nat>, s: nat, d: nat)
    requires s < |lens| && LOOKUP_BITS <= d < lens[s]
    ensures Inner(lens, CodeBits(lens, s)[..d])
  {
    assert InnerOf(lens, CodeBits(lens, s)[..d], s);
  }

  lemma LowIsPrefix(rev: nat, size: nat, c: seq<bool>)
    requires size > LOOKUP_BITS && rev < Pow2(size) && ToBits(rev, size) == c
    ensures Low(rev, LOOKUP_BITS) < LOOKUP_SIZE && FromBits(c[..LOOKUP_BITS]) == Low(rev, LOOKUP_BITS)
  {
    Pow2Values();
    ToBitsSplit(rev, LOOKUP_BITS, size - LOOKUP_BITS);
    assert LOOKUP_BITS + (size - LOOKUP_BITS) == size;
    FromToBits(Low(rev, LOOKUP_BITS), LOOKUP_BITS);
  }

  lemma HighBits(rev: nat, size: nat, c: seq<bool>)
    requires LOOKUP_BITS < size && ToBits(rev, size) == c
    ensures ToBits(High(rev, LOOKUP_BITS - 1) / 2, size - LOOKUP_BITS) == c[LOOKUP_BITS..]
  {
    var k := LOOKUP_BITS - 1;
    ToBitsSplit(rev, k, size - k);
    assert k + (size - k) == size;
    var t := ToBits(High(rev, k), size - k);
    assert t == c[k..];
    assert t[1..] == ToBits(High(rev, k) / 2, size - k - 1);
    assert c[k..][1..] == c[LOOKUP_BITS..];
  }

  /** First code words, the Kraft total and the number of used symbols. */
  method CodeStarts(totalSyms: seq<nat>, ghost s: seq<nat>) returns (next: array<nat>, total: nat, used: nat)
    requires |totalSyms| == 16 && forall l :: 0 <= l < 16 ==> totalSyms[l] == Count(s, l)
    ensures fresh(next) && next.Length == 17
    ensures forall l :: 1 <= l <= MAX_CODE_SIZE ==> next[l] == First(s, l)
    ensures total == 2 * Filled(s, MAX_CODE_SIZE) && used == UsedUpTo(s, |s|, MAX_CODE_SIZE)
  {
    next := new nat[17](_ => 0);
    used, total := 0, 0;
    for i := 1 to 16
      invariant total == First(s, i) && used == UsedUpTo(s, |s|, i - 1)
      invariant forall l :: 1 <= l <= i ==> next[l] == First(s, l)
    {
      StartStep(s, i);
      used := used + totalSyms[i];
      total := 2 * (total + totalSyms[i]);
      next[i + 1] := total;
    }
    StartStep(s, 15);
  }

  lemma StartStep(s: seq<nat>, i: nat)
    requires i >= 1
    ensures First(s, i + 1) == 2 * (First(s, i) + Count(s, i)) == 2 * Filled(s, i)
    ensures UsedUpTo(s, |s|, i) == UsedUpTo(s, |s|, i - 1) + Count(s, i)
  {
  }

  /** The low `size` bits of `x` are `rev`. */
  ghost predicate StartsWith(x: nat, rev: nat, size: nat) {
    Low(x, size) == rev
  }

  lemma LowBits(x: nat, size: nat)
    requires size <= LOOKUP_BITS
    ensures ToBits(x, LOOKUP_BITS)[..size] == ToBits(Low(x, size), size)
  {
    ToBitsSplit(x, size, LOOKUP_BITS - size);
    assert size + (LOOKUP_BITS - size) == LOOKUP_BITS;
  }

  lemma StartsWithBits(x: nat, rev: nat, size: nat)
    requires size <= LOOKUP_BITS && rev < Pow2(size)
    ensures StartsWith(x, rev, size) <==> ToBits(rev, size) <= ToBits(x, LOOKUP_BITS)
  {
    LowBits(x, size);
    if ToBits(rev, size) <= ToBits(x, LOOKUP_BITS) {
      assert ToBits(rev, size) == ToBits(Low(x, size), size);
      ReversedUnique(rev, Low(x, size), size);
    }
  }

  lemma FirstStart(rev: nat, size: nat)
    requires rev < Pow2(size)
    ensures StartsWith(rev, rev, size) && forall x :: 0 <= x < rev ==> !StartsWith(x, rev, size)
  {
    forall x | 0 <= x <= rev ensures Low(x, size) == x {
      ModSmall(x, Pow2(size));
    }
  }

  /** After a number that starts with `rev`, the next one is a block further on. */
  lemma NextStart(r: nat, rev: nat, size: nat)
    requires StartsWith(r, rev, size)
    ensures StartsWith(r + Pow2(size), rev, size)
    ensures forall x :: r < x < r + Pow2(size) ==> !StartsWith(x, rev, size)
  {
    LowHigh(r, size);
    BlockAfter(r, Pow2(size), High(r, size), rev);
  }

  lemma BlockAfter(r: nat, p: nat, k: nat, rev: nat)
    requires rev < p && r == rev + k * p
    ensures (r + p) % p == rev
    ensures forall x :: r < x < r + p ==> x % p != rev
  {
    assert p * (k + 1) == k * p + p;
    DivModUnique(r + p, p, k + 1, rev);
    forall x | r < x < r + p ensures x % p != rev {
      BetweenStarts(x, p, k, rev);
    }
  }

  lemma BetweenStarts(x: nat, p: nat, k: nat, rev: nat)
    requires rev < p && k * p + rev < x < k * p + rev + p
    ensures x % p != rev
  {
    assert p * k == k * p && p * (k + 1) == k * p + p;
    if x < k * p + p {
      DivModUnique(x, p, k, x - k * p);
    } else {
      DivModUnique(x, p, k + 1, x - k * p - p);
    }
  }
}
