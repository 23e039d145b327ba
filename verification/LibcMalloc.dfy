/** malloc and free of the C library over memory obtained by mmap: chunk headers live in
    memory at their own addresses and point at each other by address. */
module LibcMalloc {
  import opened Machine

  const ALIGNMENT: nat := 4
  const DEVIDE_SPACE_BOUNDARY: nat := 32
  const MALLOC_DEFAULT_BLOCK_SIZE: nat := 4096
  const MALLOC_MAX_ALLOCATED_BLOCKS: nat := 256
  const NULL: nat := 0
  const PAGE: nat := 4096

  datatype Header = Header(size: nat, taken: bool, next: nat, prev: nat)

  type Memory = map<nat, Header>

  /** One mapped region and the addresses of the chunk headers in it, in order. */
  datatype Block = Block(base: nat, len: nat, chain: seq<nat>)

  /** NULL, a failed assert, a pointer, or a store through a pointer that no chunk's link
      gave: what the program does after that is not described. */
  datatype Result = Null | Aborted | Ptr(p: nat) | Wild

  //////////////////////////////////////////////////////////////////////////////
  // One block
  //////////////////////////////////////////////////////////////////////////////

  /** The address after chunk j: the next header, or the end of the block. */
  function After(b: Block, j: nat): nat
    requires j < |b.chain|
  {
    if j + 1 < |b.chain| then b.chain[j + 1] else b.base + b.len
  }

  function NextOf(b: Block, j: nat): nat
    requires j < |b.chain|
  {
    if j + 1 < |b.chain| then b.chain[j + 1] else NULL
  }

  function PrevOf(b: Block, j: nat): nat
    requires j < |b.chain|
  {
    if j > 0 then b.chain[j - 1] else NULL
  }

  /** Chunk j is linked to its neighbours and reaches exactly to the next one. */
  predicate LinkOk(mem: Memory, b: Block, hdr: nat, j: nat)
    requires j < |b.chain|
  {
    var a := b.chain[j];
    && a in mem
    && mem[a].next == NextOf(b, j)
    && mem[a].prev == PrevOf(b, j)
    && a + hdr + mem[a].size == After(b, j)
  }

  /** The chunks tile the block, and the links say the same as the addresses. */
  predicate ChainOk(mem: Memory, b: Block, hdr: nat) {
    && b.base > 0 && |b.chain| > 0 && b.chain[0] == b.base
    && forall j :: 0 <= j < |b.chain| ==> LinkOk(mem, b, hdr, j)
  }

  predicate PairOk(mem: Memory, b: Block, j: nat)
    requires j + 1 < |b.chain|
  {
    && b.chain[j] in mem && b.chain[j + 1] in mem
    && (mem[b.chain[j]].taken || mem[b.chain[j + 1]].taken)
  }

  /** No two neighbouring chunks are both free. */
  predicate Coalesced(mem: Memory, b: Block) {
    forall j :: 0 <= j < |b.chain| - 1 ==> PairOk(mem, b, j)
  }

  /** Chunks are in address order, a header and a payload apart, inside the block. */
  lemma {:induction false} Ordered(mem: Memory, b: Block, hdr: nat, i: nat, j: nat)
    requires ChainOk(mem, b, hdr) && hdr > 0 && i < j < |b.chain|
    ensures LinkOk(mem, b, hdr, i) && b.chain[i] + hdr + mem[b.chain[i]].size <= b.chain[j]
    decreases j
  {
    assert LinkOk(mem, b, hdr, i) && LinkOk(mem, b, hdr, j - 1);
    if i < j - 1 {
      Ordered(mem, b, hdr, i, j - 1);
    }
  }

  lemma Inside(mem: Memory, b: Block, hdr: nat, j: nat)
    requires ChainOk(mem, b, hdr) && hdr > 0 && j < |b.chain|
    ensures LinkOk(mem, b, hdr, j)
    ensures b.base <= b.chain[j] && b.chain[j] + hdr + mem[b.chain[j]].size <= b.base + b.len
  {
    var n := |b.chain| - 1;
    assert LinkOk(mem, b, hdr, j) && LinkOk(mem, b, hdr, n);
    if j > 0 {
      Ordered(mem, b, hdr, 0, j);
    }
    if j < n {
      Ordered(mem, b, hdr, j, n);
    }
  }

  lemma Distinct(mem: Memory, b: Block, hdr: nat)
    requires ChainOk(mem, b, hdr) && hdr > 0
    ensures forall i, j :: 0 <= i < j < |b.chain| ==> b.chain[i] != b.chain[j]
  {
    forall i, j | 0 <= i < j < |b.chain|
      ensures b.chain[i] != b.chain[j]
    {
      Ordered(mem, b, hdr, i, j);
    }
  }

  /** A block does not care about memory outside its own headers. */
  lemma ChainFrame(mem: Memory, mem': Memory, b: Block, hdr: nat)
    requires ChainOk(mem, b, hdr) && Coalesced(mem, b)
    requires forall x :: x in b.chain ==> x in mem && x in mem' && mem'[x] == mem[x]
    ensures ChainOk(mem', b, hdr) && Coalesced(mem', b)
  {
    forall j | 0 <= j < |b.chain|
      ensures LinkOk(mem', b, hdr, j)
    {
      assert LinkOk(mem, b, hdr, j);
    }
    forall j | 0 <= j < |b.chain| - 1
      ensures PairOk(mem', b, j)
    {
      assert PairOk(mem, b, j);
    }
  }

  //////////////////////////////////////////////////////////////////////////////
  // Splitting and merging
  //////////////////////////////////////////////////////////////////////////////

  function SetPrev(mem: Memory, a: nat, p: nat): Memory {
    if a != NULL && a in mem then mem[a := mem[a].(prev := p)] else mem
  }

  /** Memory after the chunk at a was cut to size r: the rest becomes a free chunk. */
  function SplitMem(mem: Memory, a: nat, r: nat, hdr: nat): Memory
    requires a in mem && r + hdr <= mem[a].size
  {
    var old' := mem[a];
    var n := a + r + hdr;
    var m1 := mem[a := Header(r, true, n, old'.prev)];
    var m2 := m1[n := Header(old'.size - r - hdr, false, old'.next, a)];
    SetPrev(m2, old'.next, n)
  }

  function SplitBlock(b: Block, j: nat, n: nat): Block
    requires j < |b.chain|
  {
    b.(chain := b.chain[..j + 1] + [n] + b.chain[j + 1..])
  }

  /** The cut-off chunk's address is nobody else's. */
  lemma SplitFresh(mem: Memory, b: Block, hdr: nat, j: nat, r: nat)
    requires ChainOk(mem, b, hdr) && hdr > 0 && j < |b.chain|
    requires LinkOk(mem, b, hdr, j) && r + hdr <= mem[b.chain[j]].size
    ensures b.chain[j] + r + hdr !in b.chain
  {
    forall i | 0 <= i < |b.chain|
      ensures b.chain[i] != b.chain[j] + r + hdr
    {
      if i < j {
        Ordered(mem, b, hdr, i, j);
      } else if i > j {
        Ordered(mem, b, hdr, j, i);
      }
    }
  }

  lemma SplitKeeps(mem: Memory, b: Block, hdr: nat, j: nat, r: nat)
    requires ChainOk(mem, b, hdr) && hdr > 0 && j < |b.chain|
    requires LinkOk(mem, b, hdr, j) && r + hdr <= mem[b.chain[j]].size
    ensures ChainOk(SplitMem(mem, b.chain[j], r, hdr), SplitBlock(b, j, b.chain[j] + r + hdr), hdr)
  {
    hide SplitMem;
    var a := b.chain[j];
    var n := a + r + hdr;
    var mem', b' := SplitMem(mem, a, r, hdr), SplitBlock(b, j, n);
    forall i | 0 <= i < |b'.chain|
      ensures LinkOk(mem', b', hdr, i)
    {
      SplitLink(mem, b, hdr, j, r, i);
    }
  }

  /** What cutting changes, chunk by chunk. */
  lemma SplitHeaders(mem: Memory, b: Block, hdr: nat, j: nat, r: nat, i: nat)
    requires ChainOk(mem, b, hdr) && hdr > 0 && j < |b.chain| && i < |b.chain|
    requires LinkOk(mem, b, hdr, j) && r + hdr <= mem[b.chain[j]].size
    ensures var a, n, m := b.chain[j], b.chain[j] + r + hdr, SplitMem(mem, b.chain[j], r, hdr);
      && a in m && m[a] == Header(r, true, n, mem[a].prev)
      && n in m && m[n] == Header(mem[a].size - r - hdr, false, mem[a].next, a)
      && b.chain[i] in mem && b.chain[i] in m
      && (i != j ==> m[b.chain[i]] == if i == j + 1 then mem[b.chain[i]].(prev := n) else mem[b.chain[i]])
  {
    Distinct(mem, b, hdr);
    SplitFresh(mem, b, hdr, j, r);
    assert LinkOk(mem, b, hdr, i);
    NextInMemory(mem, b, hdr, j);
    if i != j && i != j + 1 {
      NotNext(mem, b, hdr, j, i);
    }
  }

  lemma NotNext(mem: Memory, b: Block, hdr: nat, j: nat, i: nat)
    requires ChainOk(mem, b, hdr) && hdr > 0 && j < |b.chain| && i < |b.chain| && i != j + 1
    requires b.chain[j] in mem
    ensures mem[b.chain[j]].next != b.chain[i]
  {
    Distinct(mem, b, hdr);
    Inside(mem, b, hdr, i);
    assert LinkOk(mem, b, hdr, j);
  }

  lemma SplitLink(mem: Memory, b: Block, hdr: nat, j: nat, r: nat, i: nat)
    requires ChainOk(mem, b, hdr) && hdr > 0 && j < |b.chain| && i <= |b.chain|
    requires LinkOk(mem, b, hdr, j) && r + hdr <= mem[b.chain[j]].size
    ensures LinkOk(SplitMem(mem, b.chain[j], r, hdr), SplitBlock(b, j, b.chain[j] + r + hdr), hdr, i)
  {
    hide SplitMem;
    if i != j + 1 {
      var k := if i <= j then i else i - 1;
      SplitHeaders(mem, b, hdr, j, r, k);
      assert LinkOk(mem, b, hdr, k);
    } else {
      SplitHeaders(mem, b, hdr, j, r, j);
    }
  }

  /** Memory after the chunk at a swallowed its successor. */
  function MergeMem(mem: Memory, a: nat, hdr: nat): Memory
    requires a in mem && mem[a].next in mem
  {
    var c := mem[mem[a].next];
    var m1 := mem[a := mem[a].(size := mem[a].size + (c.size + hdr))];
    var m2 := SetPrev(m1, c.next, a);
    m2[a := m2[a].(next := c.next)]
  }

  function MergeBlock(b: Block, k: nat): Block
    requires k + 1 < |b.chain|
  {
    b.(chain := b.chain[..k + 1] + b.chain[k + 2..])
  }

  lemma MergeKeeps(mem: Memory, b: Block, hdr: nat, k: nat)
    requires ChainOk(mem, b, hdr) && hdr > 0 && k + 1 < |b.chain|
    ensures b.chain[k] in mem && mem[b.chain[k]].next in mem
    ensures ChainOk(MergeMem(mem, b.chain[k], hdr), MergeBlock(b, k), hdr)
  {
    Distinct(mem, b, hdr);
    assert LinkOk(mem, b, hdr, k) && LinkOk(mem, b, hdr, k + 1);
    var mem', b' := MergeMem(mem, b.chain[k], hdr), MergeBlock(b, k);
    forall i | 0 <= i < |b'.chain|
      ensures LinkOk(mem', b', hdr, i)
    {
      if i < k {
        assert LinkOk(mem, b, hdr, i);
      } else if i > k {
        assert LinkOk(mem, b, hdr, i + 1);
      }
      if k + 2 < |b.chain| {
        assert LinkOk(mem, b, hdr, k + 2);
      }
    }
  }

  //////////////////////////////////////////////////////////////////////////////
  // All blocks
  //////////////////////////////////////////////////////////////////////////////

  predicate Apart(b: Block, c: Block) {
    b.base + b.len <= c.base || c.base + c.len <= b.base
  }

  predicate BlockOk(mem: Memory, b: Block, hdr: nat) {
    ChainOk(mem, b, hdr) && Coalesced(mem, b)
  }

  predicate HeapOk(mem: Memory, blocks: seq<Block>, hdr: nat) {
    && hdr > 0
    && (forall i :: 0 <= i < |blocks| ==> BlockOk(mem, blocks[i], hdr))
    && forall i, j :: 0 <= i < j < |blocks| ==> Apart(blocks[i], blocks[j])
  }

  /** The addresses of all chunk headers. */
  ghost function Owned(blocks: seq<Block>): set<nat> {
    set i, x | 0 <= i < |blocks| && x in blocks[i].chain :: x
  }

  /** The live allocations: chunk address to payload size. */
  ghost function Live(mem: Memory, blocks: seq<Block>): map<nat, nat> {
    map x | x in Owned(blocks) && x in mem && mem[x].taken :: mem[x].size
  }

  /** Two live allocations, header and payload, never overlap. */
  lemma LiveDisjoint(mem: Memory, blocks: seq<Block>, hdr: nat, x: nat, y: nat)
    requires HeapOk(mem, blocks, hdr)
    requires x in Live(mem, blocks) && y in Live(mem, blocks) && x < y
    ensures x + hdr + Live(mem, blocks)[x] <= y
  {
    var i :| 0 <= i < |blocks| && x in blocks[i].chain;
    var k :| 0 <= k < |blocks| && y in blocks[k].chain;
    var j :| 0 <= j < |blocks[i].chain| && blocks[i].chain[j] == x;
    var l :| 0 <= l < |blocks[k].chain| && blocks[k].chain[l] == y;
    assert BlockOk(mem, blocks[i], hdr) && BlockOk(mem, blocks[k], hdr);
    Inside(mem, blocks[i], hdr, j);
    Inside(mem, blocks[k], hdr, l);
    if i == k {
      if l < j {
        Ordered(mem, blocks[i], hdr, l, j);
      } else {
        Ordered(mem, blocks[i], hdr, j, l);
      }
    } else {
      assert if i < k then Apart(blocks[i], blocks[k]) else Apart(blocks[k], blocks[i]);
    }
  }

  /** Header and payload bytes of chunks 0 to n of a block. */
  ghost function BytesUpTo(mem: Memory, b: Block, hdr: nat, n: nat): nat
    requires n <= |b.chain|
  {
    if n == 0 then 0
    else
      BytesUpTo(mem, b, hdr, n - 1) + hdr + (if b.chain[n - 1] in mem then mem[b.chain[n - 1]].size else 0)
  }

  /** Conservation: headers and payloads of a block always add up to what was mapped. */
  lemma BytesConserved(mem: Memory, b: Block, hdr: nat)
    requires ChainOk(mem, b, hdr)
    ensures BytesUpTo(mem, b, hdr, |b.chain|) == b.len
  {
    BytesReach(mem, b, hdr, |b.chain| - 1);
  }

  lemma {:induction false} BytesReach(mem: Memory, b: Block, hdr: nat, j: nat)
    requires ChainOk(mem, b, hdr) && j < |b.chain|
    ensures b.base + BytesUpTo(mem, b, hdr, j + 1) == After(b, j)
  {
    assert LinkOk(mem, b, hdr, j);
    if j > 0 {
      BytesReach(mem, b, hdr, j - 1);
    } else {
      assert BytesUpTo(mem, b, hdr, 0) == 0;
    }
  }

  /** Replacing block i and the memory of its headers leaves a good heap. */
  lemma HeapFrame(mem: Memory, mem': Memory, blocks: seq<Block>, hdr: nat, i: nat, b': Block)
    requires HeapOk(mem, blocks, hdr) && i < |blocks|
    requires b'.base == blocks[i].base && b'.len == blocks[i].len && BlockOk(mem', b', hdr)
    requires OnlyInside(mem, mem', blocks[i])
    ensures HeapOk(mem', blocks[i := b'], hdr)
    ensures forall k, x :: 0 <= k < |blocks| && k != i && x in blocks[k].chain ==>
              x in mem && x in mem' && mem'[x] == mem[x]
  {
    forall k, x | 0 <= k < |blocks| && k != i && x in blocks[k].chain
      ensures x in mem && x in mem' && mem'[x] == mem[x]
    {
      var l :| 0 <= l < |blocks[k].chain| && blocks[k].chain[l] == x;
      assert BlockOk(mem, blocks[k], hdr);
      Inside(mem, blocks[k], hdr, l);
      assert if i < k then Apart(blocks[i], blocks[k]) else Apart(blocks[k], blocks[i]);
    }
    var bs := blocks[i := b'];
    forall k | 0 <= k < |bs|
      ensures BlockOk(mem', bs[k], hdr)
    {
      if k != i {
        assert BlockOk(mem, blocks[k], hdr);
        forall x | x in blocks[k].chain
          ensures x in mem && x in mem' && mem'[x] == mem[x]
        {
        }
        ChainFrame(mem, mem', blocks[k], hdr);
      }
    }
    forall k, l | 0 <= k < l < |bs|
      ensures Apart(bs[k], bs[l])
    {
      assert Apart(blocks[k], blocks[l]);
    }
  }

  /** Memory changed at addresses of one block only. */
  ghost predicate OnlyInside(mem: Memory, mem': Memory, b: Block) {
    forall x :: x in mem && !(b.base <= x < b.base + b.len) ==> x in mem' && mem'[x] == mem[x]
  }

  /** Chunk sizes and states other than a's are as they were. */
  ghost predicate SameElsewhere(mem: Memory, mem': Memory, chain: seq<nat>, a: nat) {
    forall x :: x in chain && x != a ==>
      x in mem && x in mem' && mem'[x].size == mem[x].size && mem'[x].taken == mem[x].taken
  }

  /** Every chain address has a header in memory. */
  lemma ChainInMemory(mem: Memory, b: Block, hdr: nat)
    requires ChainOk(mem, b, hdr)
    ensures forall x :: x in b.chain ==> x in mem
  {
    forall x | x in b.chain
      ensures x in mem
    {
      var i :| 0 <= i < |b.chain| && b.chain[i] == x;
      assert LinkOk(mem, b, hdr, i);
    }
  }

  lemma SplitValues(mem: Memory, b: Block, hdr: nat, j: nat, r: nat)
    requires ChainOk(mem, b, hdr) && hdr > 0 && j < |b.chain|
    requires LinkOk(mem, b, hdr, j) && r + hdr <= mem[b.chain[j]].size
    ensures var a := b.chain[j];
            var n := a + r + hdr;
            var mem' := SplitMem(mem, a, r, hdr);
            && n !in b.chain
            && SameElsewhere(mem, mem', b.chain, a)
            && a in mem' && mem'[a].taken && mem'[a].size == r && n in mem' && !mem'[n].taken
            && OnlyInside(mem, mem', b)
  {
    SplitFresh(mem, b, hdr, j, r);
    Distinct(mem, b, hdr);
    Inside(mem, b, hdr, j);
    ChainInMemory(mem, b, hdr);
    if j + 1 < |b.chain| {
      Inside(mem, b, hdr, j + 1);
    }
  }

  lemma SplitCoalesced(mem: Memory, b: Block, hdr: nat, j: nat, r: nat)
    requires BlockOk(mem, b, hdr) && hdr > 0 && j < |b.chain|
    requires LinkOk(mem, b, hdr, j) && r + hdr <= mem[b.chain[j]].size && !mem[b.chain[j]].taken
    ensures Coalesced(SplitMem(mem, b.chain[j], r, hdr), SplitBlock(b, j, b.chain[j] + r + hdr))
  {
    hide SplitMem;
    var n := b.chain[j] + r + hdr;
    var mem', b' := SplitMem(mem, b.chain[j], r, hdr), SplitBlock(b, j, n);
    SplitValues(mem, b, hdr, j, r);
    Distinct(mem, b, hdr);
    forall i | 0 <= i < |b'.chain| - 1
      ensures PairOk(mem', b', i)
    {
      if i < j {
        assert PairOk(mem, b, i);
      } else if i == j + 1 {
        assert PairOk(mem, b, j);
      } else if i > j + 1 {
        assert PairOk(mem, b, i - 1);
      }
    }
  }

  /** Owned addresses after one block's chain changed. */
  lemma OwnedUpdate(blocks: seq<Block>, i: nat, b': Block, x: nat)
    requires i < |blocks|
    ensures x in Owned(blocks[i := b']) <==>
            x in b'.chain || exists k :: 0 <= k < |blocks| && k != i && x in blocks[k].chain
  {
    var bs := blocks[i := b'];
    if x in b'.chain {
      assert bs[i] == b';
    }
    if k :| 0 <= k < |blocks| && k != i && x in blocks[k].chain {
      assert bs[k] == blocks[k];
    }
  }

  /** If block i's own live chunks are kept apart from a, where the new size is r (or none
      when a is given up), the live set changes at a alone. */
  lemma LiveUpdate(mem: Memory, mem': Memory, blocks: seq<Block>, hdr: nat, i: nat, b': Block, a: nat)
    requires HeapOk(mem, blocks, hdr) && i < |blocks| && a in blocks[i].chain
    requires forall k, x :: 0 <= k < |blocks| && k != i && x in blocks[k].chain ==>
               x != a && x in mem && x in mem' && mem'[x] == mem[x]
    requires forall x :: x != a ==>
               ((x in blocks[i].chain && x in mem && mem[x].taken) <==>
                (x in b'.chain && x in mem' && mem'[x].taken))
    requires forall x :: x != a && x in b'.chain && x in mem' && mem'[x].taken ==>
               x in mem && mem'[x].size == mem[x].size
    requires a in b'.chain ==> a in mem'
    ensures Live(mem', blocks[i := b']) ==
            if a in b'.chain && mem'[a].taken then Live(mem, blocks)[a := mem'[a].size]
            else Live(mem, blocks) - {a}
  {
    var bs := blocks[i := b'];
    var target := if a in b'.chain && mem'[a].taken then Live(mem, blocks)[a := mem'[a].size] else Live(mem, blocks) - {a};
    forall x
      ensures x in Live(mem', bs) <==> x in target
      ensures x in Live(mem', bs) ==> Live(mem', bs)[x] == target[x]
    {
      OwnedUpdate(blocks, i, b', x);
      OwnedUpdate(blocks, i, blocks[i], x);
      assert blocks[i := blocks[i]] == blocks;
    }
  }

  /** Memory after chunk a was only marked. */
  function Marked(mem: Memory, a: nat, t: bool): Memory
    requires a in mem
  {
    mem[a := mem[a].(taken := t)]
  }

  lemma MarkKeeps(mem: Memory, b: Block, hdr: nat, j: nat, t: bool)
    requires ChainOk(mem, b, hdr) && hdr > 0 && j < |b.chain|
    ensures b.chain[j] in mem
    ensures ChainOk(Marked(mem, b.chain[j], t), b, hdr)
    ensures OnlyInside(mem, Marked(mem, b.chain[j], t), b)
    ensures t && Coalesced(mem, b) ==> Coalesced(Marked(mem, b.chain[j], t), b)
  {
    Inside(mem, b, hdr, j);
    var mem' := Marked(mem, b.chain[j], t);
    forall i | 0 <= i < |b.chain|
      ensures LinkOk(mem', b, hdr, i)
    {
      assert LinkOk(mem, b, hdr, i);
    }
    if t && Coalesced(mem, b) {
      forall i | 0 <= i < |b.chain| - 1
        ensures PairOk(mem', b, i)
      {
        assert PairOk(mem, b, i);
      }
    }
  }

  /** A null next link marks the last chunk, and no header is at address 0. */
  lemma NextEnds(mem: Memory, b: Block, hdr: nat, j: nat)
    requires ChainOk(mem, b, hdr) && hdr > 0 && j < |b.chain|
    ensures NextOf(b, j) == NULL <==> j + 1 == |b.chain|
    ensures PrevOf(b, j) == NULL <==> j == 0
    ensures b.chain[j] > 0
  {
    Inside(mem, b, hdr, j);
    if j + 1 < |b.chain| {
      Inside(mem, b, hdr, j + 1);
    }
    if j > 0 {
      Inside(mem, b, hdr, j - 1);
    }
  }

  /** Around a freed chunk: chunks k to l are free and no other two neighbours are. */
  ghost predicate FreeRun(mem: Memory, b: Block, k: nat, l: nat) {
    && k <= l < |b.chain|
    && (forall i :: 0 <= i < k ==> PairOk(mem, b, i))
    && (forall i :: l < i < |b.chain| - 1 ==> PairOk(mem, b, i))
    && forall i :: k <= i <= l ==> b.chain[i] in mem && !mem[b.chain[i]].taken
  }

  /** The taken chunks and their sizes, a aside. */
  ghost predicate SameTaken(mem: Memory, b: Block, mem': Memory, b': Block, a: nat) {
    && b'.base == b.base && b'.len == b.len
    && (forall x :: x != a ==>
          ((x in b.chain && x in mem && mem[x].taken) <==> (x in b'.chain && x in mem' && mem'[x].taken)))
    && (forall x :: x != a && x in b'.chain && x in mem' && mem'[x].taken ==>
          x in mem && mem'[x].size == mem[x].size)
    && (a in b'.chain ==> a in mem' && !mem'[a].taken)
  }

  lemma MergeMemAt(mem: Memory, a: nat, hdr: nat)
    requires a in mem && mem[a].next in mem
    ensures var mem' := MergeMem(mem, a, hdr);
            forall x :: x in mem ==>
              && x in mem' && mem'[x].taken == mem[x].taken
              && (x != a ==> mem'[x].size == mem[x].size)
              && (x != a && (x != mem[mem[a].next].next || x == NULL) ==> mem'[x] == mem[x])
    ensures forall x :: x in MergeMem(mem, a, hdr) ==> x in mem
  {
  }

  lemma MergeInside(mem: Memory, b: Block, hdr: nat, k: nat)
    requires ChainOk(mem, b, hdr) && hdr > 0 && k + 1 < |b.chain|
    requires b.chain[k] in mem && mem[b.chain[k]].next in mem
    ensures OnlyInside(mem, MergeMem(mem, b.chain[k], hdr), b)
  {
    hide MergeMem;
    MergeMemAt(mem, b.chain[k], hdr);
    Inside(mem, b, hdr, k);
    Inside(mem, b, hdr, k + 1);
    if k + 2 < |b.chain| {
      Inside(mem, b, hdr, k + 2);
    }
  }

  /** Merging two free chunks: nothing taken comes, goes or changes size. */
  lemma MergeValues(mem: Memory, b: Block, hdr: nat, k: nat, mem0: Memory, b0: Block, a: nat)
    requires ChainOk(mem, b, hdr) && hdr > 0 && k + 1 < |b.chain|
    requires b.chain[k] in mem && mem[b.chain[k]].next in mem
    requires !mem[b.chain[k]].taken && !mem[mem[b.chain[k]].next].taken
    requires SameTaken(mem0, b0, mem, b, a)
    ensures var mem', b' := MergeMem(mem, b.chain[k], hdr), MergeBlock(b, k);
            && SameTaken(mem0, b0, mem', b', a)
            && (forall x :: x in b'.chain ==> x in mem && x in mem' && mem'[x].taken == mem[x].taken)
  {
    hide MergeMem, ChainOk;
    MergeMemAt(mem, b.chain[k], hdr);
    ChainInMemory(mem, b, hdr);
    NextIs(mem, b, hdr, k);
    MergeChain(b, k);
  }

  lemma NextIs(mem: Memory, b: Block, hdr: nat, k: nat)
    requires ChainOk(mem, b, hdr) && k + 1 < |b.chain|
    ensures b.chain[k] in mem && mem[b.chain[k]].next == b.chain[k + 1]
  {
    assert LinkOk(mem, b, hdr, k);
  }

  lemma MergeChain(b: Block, k: nat)
    requires k + 1 < |b.chain|
    ensures forall x :: x in MergeBlock(b, k).chain ==> x in b.chain
    ensures forall x :: x in b.chain && x != b.chain[k + 1] ==> x in MergeBlock(b, k).chain
  {
    assert b.chain == b.chain[..k + 1] + [b.chain[k + 1]] + b.chain[k + 2..];
  }

  lemma MergeRun(mem: Memory, b: Block, hdr: nat, k: nat, l: nat, mem': Memory)
    requires ChainOk(mem, b, hdr) && hdr > 0 && k + 1 < |b.chain| && FreeRun(mem, b, k, l)
    requires forall x :: x in MergeBlock(b, k).chain ==> x in mem && x in mem' && mem'[x].taken == mem[x].taken
    ensures FreeRun(mem', MergeBlock(b, k), k, if l > k then l - 1 else k)
  {
    var b' := MergeBlock(b, k);
    var l' := if l > k then l - 1 else k;
    forall i | 0 <= i < k
      ensures PairOk(mem', b', i)
    {
      assert PairOk(mem, b, i);
    }
    forall i | l' < i < |b'.chain| - 1
      ensures PairOk(mem', b', i)
    {
      assert PairOk(mem, b, i + 1);
    }
    forall i | k <= i <= l'
      ensures b'.chain[i] in mem' && !mem'[b'.chain[i]].taken
    {
      assert b'.chain[i] == if i == k then b.chain[k] else b.chain[i + 1];
    }
  }

  //////////////////////////////////////////////////////////////////////////////
  // Placement
  //////////////////////////////////////////////////////////////////////////////

  /** The request as malloc rounds it: added to and masked in 32 bits. */
  function Rounded(sz: nat): (r: nat)
    ensures r % ALIGNMENT == 0
  {
    var x := (sz + (ALIGNMENT - 1)) % 0x1_0000_0000;
    x - x % ALIGNMENT
  }

  /** The rounded request covers the request exactly when it survives the 32-bit mask. */
  lemma RoundedCovers(sz: nat)
    ensures sz <= Rounded(sz) <==> sz <= 0xFFFF_FFFC
    ensures sz <= 0xFFFF_FFFC ==> Rounded(sz) < sz + ALIGNMENT
  {
  }

  /** Header size and the number of values of size_t, for 32-bit and for 64-bit pointers. */
  predicate Layout(hdr: nat, wordMod: nat) {
    (hdr == 16 && wordMod == 0x1_0000_0000) || (hdr == 32 && wordMod == 0x1_0000_0000_0000_0000)
  }

  /** _malloc_need_to_divide_space, in size_t. */
  predicate NeedToDivide(size: nat, r: nat, wordMod: nat)
    requires wordMod > 0
  {
    (r + DEVIDE_SPACE_BOUNDARY) % wordMod <= size
  }

  /** _malloc_can_fit_allocation, in size_t. */
  predicate CanFit(size: nat, r: nat, hdr: nat, wordMod: nat)
    requires wordMod > 0
  {
    size >= (r + (if NeedToDivide(size, r, wordMod) then hdr else 0)) % wordMod
  }

  /** The chunk can take the request: it is free and at least that large. */
  predicate Fits(mem: Memory, a: nat, r: nat) {
    a in mem && !mem[a].taken && mem[a].size >= r
  }

  /** The chunk passes the program's test. */
  predicate Chosen(mem: Memory, a: nat, r: nat, hdr: nat, wordMod: nat)
    requires wordMod > 0
  {
    a in mem && !mem[a].taken && CanFit(mem[a].size, r, hdr, wordMod)
  }

  /** Request and header together exceed size_t. */
  predicate Wraps(r: nat, hdr: nat, wordMod: nat) {
    r + hdr >= wordMod
  }

  /** The test is right for every request that does not wrap; a request that does passes
      for any chunk of a few bytes, which it then wants to divide. */
  lemma CanFitMeans(size: nat, r: nat, hdr: nat, wordMod: nat)
    requires Layout(hdr, wordMod) && r % ALIGNMENT == 0 && r < 0x1_0000_0000 && size + hdr + PAGE <= wordMod
    ensures !Wraps(r, hdr, wordMod) ==> (CanFit(size, r, hdr, wordMod) <==> r <= size)
    ensures !Wraps(r, hdr, wordMod) && r <= size ==>
              (NeedToDivide(size, r, wordMod) <==> r + DEVIDE_SPACE_BOUNDARY <= size)
    ensures Wraps(r, hdr, wordMod) ==>
              && (CanFit(size, r, hdr, wordMod) <==> r + DEVIDE_SPACE_BOUNDARY - wordMod <= size)
              && (CanFit(size, r, hdr, wordMod) ==> NeedToDivide(size, r, wordMod))
  {
    if Layout(16, wordMod) {
      SmallMod(r, wordMod);
      SmallMod(r + hdr, wordMod);
      SmallMod(r + DEVIDE_SPACE_BOUNDARY, wordMod);
    }
  }

  lemma SmallMod(x: nat, m: nat)
    requires m > 0 && x < 2 * m
    ensures x % m == if x < m then x else x - m
  {
  }

  /** What is mapped for a request, in size_t. */
  function MapLen(r: nat, hdr: nat, wordMod: nat): nat
    requires wordMod > 0
  {
    var sz := (r + hdr) % wordMod;
    if sz > MALLOC_DEFAULT_BLOCK_SIZE then sz else MALLOC_DEFAULT_BLOCK_SIZE
  }

  /** A new block has the default length or just holds the request and its header; it does
      hold it unless the sum wraps. */
  lemma MapLenHolds(r: nat, hdr: nat, wordMod: nat)
    requires Layout(hdr, wordMod) && r < wordMod
    ensures MapLen(r, hdr, wordMod) >= MALLOC_DEFAULT_BLOCK_SIZE
    ensures MapLen(r, hdr, wordMod) == MALLOC_DEFAULT_BLOCK_SIZE || MapLen(r, hdr, wordMod) == r + hdr
    ensures r + hdr <= MapLen(r, hdr, wordMod) <==> r + hdr < wordMod
  {
    SmallMod(r + hdr, wordMod);
  }

  /** Blocks lie in the address space, clear of page 0. */
  predicate InSpace(blocks: seq<Block>, wordMod: nat) {
    forall i :: 0 <= i < |blocks| ==> PAGE <= blocks[i].base && blocks[i].base + blocks[i].len <= wordMod
  }

  lemma SizeBound(mem: Memory, blocks: seq<Block>, hdr: nat, wordMod: nat, i: nat, j: nat)
    requires HeapOk(mem, blocks, hdr) && InSpace(blocks, wordMod) && i < |blocks| && j < |blocks[i].chain|
    ensures var a := blocks[i].chain[j]; a in mem && PAGE <= a && a + hdr + mem[a].size <= wordMod
  {
    assert BlockOk(mem, blocks[i], hdr);
    Inside(mem, blocks[i], hdr, j);
  }

  /** No chunk passes the program's test. */
  ghost predicate NoneChosen(mem: Memory, blocks: seq<Block>, r: nat, hdr: nat, wordMod: nat)
    requires wordMod > 0
  {
    forall x :: x in Owned(blocks) ==> !Chosen(mem, x, r, hdr, wordMod)
  }

  /** The chunk at a is the first one, in block order and then chain order, that passes. */
  ghost predicate FirstAt(mem: Memory, blocks: seq<Block>, r: nat, hdr: nat, wordMod: nat, i: nat, j: nat)
    requires wordMod > 0
  {
    && i < |blocks| && j < |blocks[i].chain| && Chosen(mem, blocks[i].chain[j], r, hdr, wordMod)
    && (forall k :: 0 <= k < j ==> !Chosen(mem, blocks[i].chain[k], r, hdr, wordMod))
    && forall h, x :: 0 <= h < i && x in blocks[h].chain ==> !Chosen(mem, x, r, hdr, wordMod)
  }

  ghost predicate First(mem: Memory, blocks: seq<Block>, r: nat, hdr: nat, wordMod: nat, a: nat)
    requires wordMod > 0
  {
    exists i: nat, j: nat :: FirstAt(mem, blocks, r, hdr, wordMod, i, j) && a == blocks[i].chain[j]
  }

  /** With a request that does not wrap, passing the test is fitting. */
  lemma ChosenIsFit(mem: Memory, blocks: seq<Block>, r: nat, hdr: nat, wordMod: nat)
    requires Layout(hdr, wordMod) && HeapOk(mem, blocks, hdr) && InSpace(blocks, wordMod)
    requires r % ALIGNMENT == 0 && r < 0x1_0000_0000 && !Wraps(r, hdr, wordMod)
    ensures forall x :: x in Owned(blocks) ==> (Chosen(mem, x, r, hdr, wordMod) <==> Fits(mem, x, r))
    ensures NoneChosen(mem, blocks, r, hdr, wordMod) <==> NoFit(mem, blocks, r)
  {
    hide HeapOk, InSpace, CanFit;
    forall x | x in Owned(blocks)
      ensures Chosen(mem, x, r, hdr, wordMod) <==> Fits(mem, x, r)
    {
      var i, j := Locate(blocks, x);
      SizeBound(mem, blocks, hdr, wordMod, i, j);
      CanFitMeans(mem[x].size, r, hdr, wordMod);
    }
  }

  ghost predicate NoFit(mem: Memory, blocks: seq<Block>, r: nat) {
    forall x :: x in Owned(blocks) ==> !Fits(mem, x, r)
  }

  /** The blocks describe the heap. */
  ghost predicate Described(mem: Memory, memory: seq<nat>, blocks: seq<Block>, hdr: nat, wordMod: nat) {
    && HeapOk(mem, blocks, hdr) && InSpace(blocks, wordMod)
    && |memory| == |blocks| <= MALLOC_MAX_ALLOCATED_BLOCKS
    && forall i :: 0 <= i < |memory| ==> memory[i] == blocks[i].base
  }

  /** Some blocks describe the heap. */
  ghost predicate Sound(mem: Memory, memory: seq<nat>, hdr: nat, wordMod: nat) {
    exists bs :: Described(mem, memory, bs, hdr, wordMod)
  }

  /** And the chunk at a is a live allocation of at least r bytes in it. */
  ghost predicate Granted(mem: Memory, memory: seq<nat>, hdr: nat, wordMod: nat, a: nat, r: nat) {
    exists bs :: Described(mem, memory, bs, hdr, wordMod) && a in Live(mem, bs) && r <= Live(mem, bs)[a]
  }

  /** malloc finds a chunk that passes, or can have a block mapped. */
  ghost predicate Serves(mem: Memory, blocks: seq<Block>, count: nat, mapped: int, sz: nat, hdr: nat, wordMod: nat)
    requires wordMod > 0
  {
    sz != 0 && (!NoneChosen(mem, blocks, Rounded(sz), hdr, wordMod) || (count < MALLOC_MAX_ALLOCATED_BLOCKS && mapped >= 0))
  }

  /** It finds none, and the table of blocks is full. */
  ghost predicate TableFull(mem: Memory, blocks: seq<Block>, count: nat, sz: nat, hdr: nat, wordMod: nat)
    requires wordMod > 0
  {
    sz != 0 && NoneChosen(mem, blocks, Rounded(sz), hdr, wordMod) && count >= MALLOC_MAX_ALLOCATED_BLOCKS
  }

  /** The stores for a sum that wraps by `over` bytes all go where a chunk's link leads: its
      header c at a then says so. */
  predicate KeepsLinks(c: Header, a: nat, over: int) {
    if over == 0 then c.next != NULL else if over == 8 then c.size == a + 16 else over == 12
  }

  class Heap {
    /** sizeof(malloc_header_t): 16 with 32-bit pointers, 32 with 64-bit ones. */
    const hdr: nat
    /** 2 to the width of size_t. */
    const wordMod: nat
    var mem: Memory
    /** The first chunks of the mapped blocks; its length is allocated_blocks. */
    var memory: seq<nat>
    ghost var blocks: seq<Block>
    /** The bytes of payloads, by address. */
    var bytes: nat -> int

    ghost predicate Valid()
      reads this
    {
      Layout(hdr, wordMod) && Described(mem, memory, blocks, hdr, wordMod)
    }

    constructor (wide: bool)
      ensures Valid() && memory == [] && Live(mem, blocks) == map[]
      ensures hdr == if wide then 32 else 16
    {
      hdr := if wide then 32 else 16;
      wordMod := if wide then 0x1_0000_0000_0000_0000 else 0x1_0000_0000;
      mem := map[];
      memory := [];
      blocks := [];
      bytes := _ => 0;
    }

    /** The search loops: the first chunk in block order, then chain order, that passes the
        test. */
    method FindFirstFit(r: nat) returns (a: nat, ghost i: nat, ghost j: nat)
      requires Valid()
      ensures a == NULL ==> NoneChosen(mem, blocks, r, hdr, wordMod)
      ensures a != NULL ==> i < |blocks| && j < |blocks[i].chain| && a == blocks[i].chain[j]
      ensures a != NULL ==> FirstAt(mem, blocks, r, hdr, wordMod, i, j)
    {
      hide CanFit;
      i, j := 0, 0;
      for n := 0 to |memory|
        invariant forall h, x :: 0 <= h < n && x in blocks[h].chain ==> !Chosen(mem, x, r, hdr, wordMod)
      {
        i, j := n, 0;
        ghost var b := blocks[n];
        assert BlockOk(mem, b, hdr);
        var cur := memory[n];
        assert LinkOk(mem, b, hdr, 0);
        while mem[cur].next != NULL && !(!mem[cur].taken && CanFit(mem[cur].size, r, hdr, wordMod))
          invariant 0 <= j < |b.chain| && cur == b.chain[j] && LinkOk(mem, b, hdr, j)
          invariant forall k :: 0 <= k < j ==> !Chosen(mem, b.chain[k], r, hdr, wordMod)
          decreases |b.chain| - j
        {
          cur := mem[cur].next;
          j := j + 1;
          assert LinkOk(mem, b, hdr, j);
        }
        NextEnds(mem, b, hdr, j);
        if !mem[cur].taken && CanFit(mem[cur].size, r, hdr, wordMod) {
          a := cur;
          Inside(mem, b, hdr, j);
          return;
        }
      }
      a := NULL;
    }

    /** A mapping the system may return for a new block: in the address space, clear of page
        0, and nowhere near the old ones. */
    ghost predicate FreshRegion(base: nat, len: nat)
      reads this
    {
      && PAGE <= base && base + len <= wordMod
      && forall b :: b in blocks ==> b.base + b.len <= base || base + len <= b.base
    }

    /** A new block of one free chunk. */
    method AllocNewBlock(r: nat, mapped: nat)
      requires Valid() && |memory| < MALLOC_MAX_ALLOCATED_BLOCKS && FreshRegion(mapped, MapLen(r, hdr, wordMod))
      modifies this`mem, this`memory, this`blocks
      ensures Valid()
      ensures blocks == old(blocks) + [Block(mapped, MapLen(r, hdr, wordMod), [mapped])]
      ensures memory == old(memory) + [mapped]
      ensures mem == old(mem)[mapped := Header(MapLen(r, hdr, wordMod) - hdr, false, NULL, NULL)]
      ensures Live(mem, blocks) == old(Live(mem, blocks))
    {
      ghost var mem0, b := mem, Block(mapped, MapLen(r, hdr, wordMod), [mapped]);
      mem := mem[mapped := Header(MapLen(r, hdr, wordMod) - hdr, false, NULL, NULL)];
      memory := memory + [mapped];
      NewBlockKeeps(mem0, mem, blocks, hdr, b);
      blocks := blocks + [b];
    }

    /** Allocating in the fitting chunk a, cutting off what is not needed. */
    method Take(a: nat, r: nat, ghost i: nat, ghost j: nat)
      requires Valid() && i < |blocks| && j < |blocks[i].chain| && a == blocks[i].chain[j]
      requires Fits(mem, a, r) && (NeedToDivide(mem[a].size, r, wordMod) <==> r + DEVIDE_SPACE_BOUNDARY <= mem[a].size)
      modifies this`mem, this`memory, this`blocks
      ensures Valid() && memory == old(memory)
      ensures SameRegions(old(blocks), blocks)
      ensures a !in old(Live(mem, blocks)) && a in mem && r <= mem[a].size < r + DEVIDE_SPACE_BOUNDARY
      ensures Live(mem, blocks) == old(Live(mem, blocks))[a := mem[a].size]
    {
      hide HeapOk, Live, NeedToDivide;
      ghost var mem0, b := mem, blocks[i];
      HeapParts(mem, blocks, hdr, i, j);
      var copyNext := mem[a].next;
      var copySize := mem[a].size;
      mem := mem[a := mem[a].(taken := true)];
      if NeedToDivide(mem[a].size, r, wordMod) {
        var n := a + r + hdr;
        mem := mem[a := mem[a].(size := r, next := n)];
        mem := mem[n := Header(copySize - r - hdr, false, copyNext, a)];
        NextEnds(mem0, b, hdr, j);
        if mem[n].next != NULL {
          assert LinkOk(mem0, b, hdr, j + 1);
          mem := mem[copyNext := mem[copyNext].(prev := n)];
        }
        assert mem == SplitMem(mem0, a, r, hdr);
        SplitHeap(mem0, blocks, hdr, i, j, r);
        blocks := blocks[i := SplitBlock(b, j, n)];
      } else {
        TakeHeap(mem0, blocks, hdr, i, j);
      }
    }

    /** The same statements for a request that wraps around: the cut-off chunk's header lies
        1, 2, 3 words into the chunk's own, or on it. Its words and the four behind it are
        stored to one by one, and first_fit->next is read anew for each store. */
    method TakeWrapped(a: nat, r: nat, ghost i: nat, ghost j: nat) returns (ok: bool)
      requires Valid() && i < |blocks| && j < |blocks[i].chain| && a == blocks[i].chain[j]
      requires r % ALIGNMENT == 0 && r < 0x1_0000_0000 && Wraps(r, hdr, wordMod)
      requires a in mem && !mem[a].taken && r + DEVIDE_SPACE_BOUNDARY - wordMod <= mem[a].size
      modifies this`mem
      ensures ok <==> KeepsLinks(old(mem)[a], a, r + hdr - wordMod)
      ensures r + hdr == wordMod && ok ==> mem == old(mem)
      ensures ok && r + hdr > wordMod ==> Overstated(old(mem), mem, blocks[i], j, r)
    {
      hide Overstated, ChainOk, BlockOk, LinkOk, PairOk, HeapOk, InSpace;
      HeapParts(mem, blocks, hdr, i, j);
      NextEnds(mem, blocks[i], hdr, j);
      NextInMemory(mem, blocks[i], hdr, j);
      SizeBound(mem, blocks, hdr, wordMod, i, j);
      ghost var mem0 := mem;
      var copyNext, copySize := mem[a].next, mem[a].size;
      WrappedTarget(a, r, hdr, wordMod, copySize);
      var n := (a + r + hdr) % wordMod;
      var k := (n - a) / 4;
      var w: seq<nat> := [r, 1, n, mem[a].prev, 0, 0, 0, 0];
      w := w[k + 1 := 0];
      if w[2] != n {
        return false;
      }
      w := w[k := (copySize + 2 * wordMod - r - hdr) % wordMod];
      if w[2] != n {
        return false;
      }
      w := w[k + 2 := copyNext];
      if w[2] == n {
        w := w[k + 3 := a];
        if w[k + 2] != NULL {
          mem := mem[copyNext := mem[copyNext].(prev := n)];
        }
      } else {
        // k is 0: the cut-off header was the chunk's own, and now it is linked as before.
        if copyNext == NULL {
          return false;
        }
        mem := mem[copyNext := mem[copyNext].(prev := a)];
        var c := mem[copyNext].next;
        if c != NULL {
          mem := mem[c := mem[c].(prev := copyNext)];
        }
      }
      mem := mem[a := Header(w[0], w[1] == 1, w[2], w[3])];
      if k > 0 {
        EarlierKept(mem0, mem, blocks[i], hdr, j, r);
      }
      ok := true;
    }

    /** Requests that do not wrap around: a null result leaves the heap alone; otherwise
        exactly one live allocation is added, of at least the rounded size and less than 32
        bytes more, in the first chunk that fits, and a block is mapped only when none does.
        Requests that do wrap never get what they ask for. */
    method Malloc(sz: nat, mapped: int) returns (res: Result)
      requires Valid() && sz < wordMod
      requires mapped >= 0 ==> FreshRegion(mapped, MapLen(Rounded(sz), hdr, wordMod))
      modifies this`mem, this`memory, this`blocks
      ensures !Wraps(Rounded(sz), hdr, wordMod) ==> Valid() && !res.Wild?
      ensures !Wraps(Rounded(sz), hdr, wordMod) && res.Ptr? ==>
                && res.p >= hdr
                && var a, r := res.p - hdr, Rounded(sz);
                   && a !in old(Live(mem, blocks))
                   && a in mem && r <= mem[a].size < r + DEVIDE_SPACE_BOUNDARY
                   && Live(mem, blocks) == old(Live(mem, blocks))[a := mem[a].size]
                   && (if old(NoFit(mem, blocks, r)) then
                         a == mapped && |blocks| == |old(blocks)| + 1
                       else
                         Fits(old(mem), a, r) && SameRegions(old(blocks), blocks))
      ensures res.Ptr? ==> res.p >= hdr
      ensures res.Ptr? ==> (Sound(mem, memory, hdr, wordMod) <==> Rounded(sz) + hdr <= wordMod)
      ensures res.Ptr? ==> (Granted(mem, memory, hdr, wordMod, res.p - hdr, Rounded(sz)) <==> !Wraps(Rounded(sz), hdr, wordMod))
      ensures res.Ptr? && !old(NoneChosen(mem, blocks, Rounded(sz), hdr, wordMod)) ==>
                First(old(mem), old(blocks), Rounded(sz), hdr, wordMod, res.p - hdr)
      ensures res.Ptr? && Rounded(sz) + hdr == wordMod ==>
                Valid() && mem == old(mem) && blocks == old(blocks) && memory == old(memory)
      ensures res.Ptr? || res.Wild? <==> old(Serves(mem, blocks, |memory|, mapped, sz, hdr, wordMod))
      ensures res.Aborted? <==> old(TableFull(mem, blocks, |memory|, sz, hdr, wordMod))
      ensures Wraps(Rounded(sz), hdr, wordMod) && old(NoneChosen(mem, blocks, Rounded(sz), hdr, wordMod)) ==>
                (res.Ptr? ==> Rounded(sz) + hdr == wordMod + 12) && (res.Wild? ==> Rounded(sz) + hdr != wordMod + 12)
      ensures forall a :: Wraps(Rounded(sz), hdr, wordMod) && First(old(mem), old(blocks), Rounded(sz), hdr, wordMod, a) ==>
                a in old(mem) && (res.Ptr? <==> KeepsLinks(old(mem)[a], a, Rounded(sz) + hdr - wordMod))
      ensures res.Null? || res.Aborted? ==> Valid() && mem == old(mem) && blocks == old(blocks) && memory == old(memory)
      ensures (res.Null? && sz != 0) || res.Aborted? ==> !Wraps(Rounded(sz), hdr, wordMod) ==> NoFit(mem, blocks, Rounded(sz))
      ensures res.Null? ==> sz == 0 || (mapped < 0 && NoneChosen(mem, blocks, Rounded(sz), hdr, wordMod))
      ensures res.Aborted? ==> |memory| == MALLOC_MAX_ALLOCATED_BLOCKS && NoneChosen(mem, blocks, Rounded(sz), hdr, wordMod)
    {
      hide HeapOk, Live, Rounded, InSpace, NoneChosen, FirstAt, NoFit, Granted, Sound, First, CanFit, MapLen, FreshRegion, Wraps;
      RoundedRange(sz);
      RoundedNothing();
      NoWrap(Rounded(sz), hdr, wordMod);
      if sz == 0 {
        return Null;
      }
      var r := Rounded(sz);
      if r + hdr < wordMod {
        ChosenIsFit(mem, blocks, r, hdr, wordMod);
      }
      var a, i, j := FindFirstFit(r);
      if a == NULL {
        NoneFirst(mem, blocks, r, hdr, wordMod);
        if |memory| >= MALLOC_MAX_ALLOCATED_BLOCKS {
          return Aborted;
        }
        if mapped < 0 {
          return Null;
        }
        res := Mapped(r, mapped);
      } else {
        FirstIs(mem, blocks, r, hdr, wordMod, i, j);
        forall x | First(mem, blocks, r, hdr, wordMod, x)
          ensures x == a && x in mem
        {
          FirstUnique(mem, blocks, r, hdr, wordMod, x, a);
        }
        res := Cut(a, r, i, j);
      }
    }

    /** The part of malloc after a chunk was found that passes the test. */
    method Cut(a: nat, r: nat, ghost i: nat, ghost j: nat) returns (res: Result)
      requires Valid() && r % ALIGNMENT == 0 && r < 0x1_0000_0000
      requires i < |blocks| && j < |blocks[i].chain| && a == blocks[i].chain[j] && Chosen(mem, a, r, hdr, wordMod)
      modifies this`mem, this`memory, this`blocks
      ensures !Wraps(r, hdr, wordMod) ==>
                && res == Ptr(a + hdr) && Valid() && SameRegions(old(blocks), blocks)
                && a !in old(Live(mem, blocks)) && a in mem && r <= mem[a].size < r + DEVIDE_SPACE_BOUNDARY
                && Live(mem, blocks) == old(Live(mem, blocks))[a := mem[a].size]
      ensures Wraps(r, hdr, wordMod) ==>
                && res == (if res.Ptr? then Ptr(a + hdr) else Wild)
                && (res.Ptr? <==> KeepsLinks(old(mem)[a], a, r + hdr - wordMod))
                && (r + hdr == wordMod && res.Ptr? ==> Valid() && mem == old(mem) && blocks == old(blocks))
      ensures memory == old(memory)
      ensures res.Ptr? ==> (Sound(mem, memory, hdr, wordMod) <==> r + hdr <= wordMod)
      ensures res.Ptr? ==> (Granted(mem, memory, hdr, wordMod, a, r) <==> !Wraps(r, hdr, wordMod))
    {
      hide HeapOk, Live, InSpace, CanFit, NeedToDivide, Granted, Sound, Overstated;
      SizeBound(mem, blocks, hdr, wordMod, i, j);
      CanFitMeans(mem[a].size, r, hdr, wordMod);
      if r + hdr < wordMod {
        Take(a, r, i, j);
        GrantedNow(mem, memory, blocks, hdr, wordMod, a, r);
        res := Ptr(a + hdr);
      } else {
        ghost var mem0 := mem;
        var ok := TakeWrapped(a, r, i, j);
        if !ok {
          return Wild;
        }
        if r + hdr == wordMod {
          NotGranted(mem, memory, blocks, hdr, wordMod, a, r);
        } else {
          OverstatedUnsound(mem0, mem, memory, blocks, hdr, wordMod, i, j, r);
        }
        res := Ptr(a + hdr);
      }
    }

    /** The part after a block had to be mapped. */
    method Mapped(r: nat, mapped: nat) returns (res: Result)
      requires Valid() && r % ALIGNMENT == 0 && r < 0x1_0000_0000
      requires |memory| < MALLOC_MAX_ALLOCATED_BLOCKS && FreshRegion(mapped, MapLen(r, hdr, wordMod))
      modifies this`mem, this`memory, this`blocks
      ensures !Wraps(r, hdr, wordMod) ==>
                && res == Ptr(mapped + hdr) && Valid() && |blocks| == |old(blocks)| + 1
                && mapped !in old(Live(mem, blocks)) && mapped in mem && r <= mem[mapped].size < r + DEVIDE_SPACE_BOUNDARY
                && Live(mem, blocks) == old(Live(mem, blocks))[mapped := mem[mapped].size]
      ensures Wraps(r, hdr, wordMod) ==>
                res == (if res.Ptr? then Ptr(mapped + hdr) else Wild) && (res.Ptr? <==> r + hdr == wordMod + 12)
      ensures res.Ptr? ==> (Sound(mem, memory, hdr, wordMod) <==> r + hdr <= wordMod)
      ensures res.Ptr? ==> (Granted(mem, memory, hdr, wordMod, mapped, r) <==> !Wraps(r, hdr, wordMod))
    {
      hide HeapOk, Live, InSpace, CanFit, MapLen, Granted, Sound;
      AllocNewBlock(r, mapped);
      ghost var i := |blocks| - 1;
      SizeBound(mem, blocks, hdr, wordMod, i, 0);
      MapLenPasses(r, hdr, wordMod, mem[mapped].size);
      if r + hdr >= wordMod {
        NewBlockLinks(r, hdr, wordMod, mapped);
      }
      res := Cut(mapped, r, i, 0);
    }

    /** One turn of the gluing loop: the chunk at a swallows its successor. */
    method Swallow(a: nat, ghost b: Block, ghost k: nat)
      requires ChainOk(mem, b, hdr) && hdr > 0 && k + 1 < |b.chain| && a == b.chain[k]
      modifies `mem
      ensures a in old(mem) && old(mem)[a].next in old(mem) && mem == MergeMem(old(mem), a, hdr)
    {
      ghost var m := mem;
      Distinct(mem, b, hdr);
      LinksInMemory(mem, b, hdr, k);
      LinksInMemory(mem, b, hdr, k + 1);
      NextEnds(mem, b, hdr, k);
      mem := mem[a := mem[a].(size := mem[a].size + (mem[mem[a].next].size + hdr))];
      if mem[mem[a].next].next != NULL {
        mem := mem[mem[mem[a].next].next := mem[mem[mem[a].next].next].(prev := a)];
      }
      mem := mem[a := mem[a].(next := mem[mem[a].next].next)];
      assert mem == MergeMem(m, a, hdr);
    }

    /** The walk back to the first free chunk of the run that ends at a. */
    method WalkBack(a: nat, ghost b: Block, ghost j: nat) returns (h: nat, ghost k: nat)
      requires ChainOk(mem, b, hdr) && hdr > 0 && j < |b.chain|
      requires a == b.chain[j] && a in mem && !mem[a].taken
      ensures k <= j && h == b.chain[k]
      ensures forall n :: k <= n <= j ==> b.chain[n] in mem && !mem[b.chain[n]].taken
      ensures k > 0 ==> b.chain[k - 1] in mem && mem[b.chain[k - 1]].taken
    {
      h, k := a, j;
      LinksInMemory(mem, b, hdr, k);
      while mem[h].prev != NULL && !mem[mem[h].prev].taken
        invariant 0 <= k <= j && h == b.chain[k] && LinkOk(mem, b, hdr, k)
        invariant forall n :: k <= n <= j ==> b.chain[n] in mem && !mem[b.chain[n]].taken
        invariant mem[h].prev != NULL ==> mem[h].prev in mem
        decreases k
      {
        NextEnds(mem, b, hdr, k);
        h := mem[h].prev;
        k := k - 1;
        LinksInMemory(mem, b, hdr, k);
      }
      NextEnds(mem, b, hdr, k);
    }

    /** The gluing loop: free chunks after h are swallowed. */
    method Glue(h: nat, ghost b0: Block, ghost k: nat, ghost l0: nat, ghost mem0: Memory, ghost a: nat)
      returns (ghost b: Block)
      requires ChainOk(mem, b0, hdr) && hdr > 0 && FreeRun(mem, b0, k, l0) && h == b0.chain[k]
      requires SameTaken(mem0, b0, mem, b0, a) && OnlyInside(mem0, mem, b0)
      modifies `mem
      ensures BlockOk(mem, b, hdr) && SameTaken(mem0, b0, mem, b, a) && OnlyInside(mem0, mem, b0)
    {
      hide SameTaken, OnlyInside, MergeMem;
      ghost var l: nat := l0;
      b := b0;
      LinksInMemory(mem, b, hdr, k);
      while mem[h].next != NULL && !mem[mem[h].next].taken
        invariant ChainOk(mem, b, hdr) && k < |b.chain| && h == b.chain[k] && LinkOk(mem, b, hdr, k)
        invariant b.base == b0.base && b.len == b0.len
        invariant mem[h].next != NULL ==> mem[h].next in mem
        invariant FreeRun(mem, b, k, l)
        invariant SameTaken(mem0, b0, mem, b, a) && OnlyInside(mem0, mem, b0)
        decreases |b.chain|
      {
        NextEnds(mem, b, hdr, k);
        ghost var m := mem;
        Swallow(h, b, k);
        MergeKeeps(m, b, hdr, k);
        MergeValues(m, b, hdr, k, mem0, b0, a);
        MergeInside(m, b, hdr, k);
        InsideTwice(mem0, m, mem, b0, b);
        MergeRun(m, b, hdr, k, l, mem);
        b, l := MergeBlock(b, k), if l > k then l - 1 else k;
        LinksInMemory(mem, b, hdr, k);
      }
      NextEnds(mem, b, hdr, k);
      RunEnds(mem, b, hdr, k, l);
    }

    /** The live allocation goes away, every other one stays as it is, and neighbouring
        free chunks are one again. */
    method Free(p: nat)
      requires Valid() && (p == NULL || (p >= hdr && p - hdr in Owned(blocks)))
      modifies this`mem, this`memory, this`blocks
      ensures Valid() && memory == old(memory) && SameRegions(old(blocks), blocks)
      ensures p == NULL ==> mem == old(mem) && blocks == old(blocks)
      ensures p != NULL ==> Live(mem, blocks) == old(Live(mem, blocks)) - {p - hdr}
    {
      if p == NULL {
        return;
      }
      hide HeapOk, Live, Owned, FreeRun, SameTaken, OnlyInside, Coalesced;
      var a := p - hdr;
      ghost var i, j := Locate(blocks, a);
      ghost var mem0, b0 := mem, blocks[i];
      HeapParts(mem, blocks, hdr, i, j);
      mem := mem[a := mem[a].(taken := false)];
      MarkKeeps(mem0, b0, hdr, j, false);
      ReleaseTaken(mem0, b0, hdr, j);
      ghost var k;
      var h;
      h, k := WalkBack(a, b0, j);
      RunStarts(mem0, mem, b0, hdr, k, j);
      ghost var b := Glue(h, b0, k, j, mem0, a);
      FreeHeap(mem0, mem, blocks, hdr, i, b, a);
      blocks := blocks[i := b];
    }
  
    /** realloc: a live allocation that has the size already is kept; else it succeeds, fails
        and aborts as malloc does for the new size. The new allocation begins with the old
        bytes as far as both go, and every other live allocation keeps its size and its bytes;
        on failure nothing changes. The result is Wild when malloc's is, when a sum that wraps
        has damaged the heap, or when the copy leaves an allocation that the mask made too
        small. */
    method Realloc(p: nat, newSize: nat, mapped: int) returns (res: Result)
      requires Valid() && newSize < wordMod
      requires p == NULL || (p >= hdr && p - hdr in Live(mem, blocks))
      requires mapped >= 0 ==> FreshRegion(mapped, MapLen(Rounded(newSize), hdr, wordMod))
      modifies this
      ensures !Wraps(Rounded(newSize), hdr, wordMod) ==> Valid()
      ensures p != NULL && old(Live(mem, blocks))[p - hdr] == newSize ==>
                res == Ptr(p) && Valid() && mem == old(mem) && blocks == old(blocks) && bytes == old(bytes)
      ensures p == NULL || old(Live(mem, blocks))[p - hdr] != newSize ==>
                && (res.Ptr? || res.Wild? <==> old(Serves(mem, blocks, |memory|, mapped, newSize, hdr, wordMod)))
                && (res.Aborted? <==> old(TableFull(mem, blocks, |memory|, newSize, hdr, wordMod)))
      ensures (newSize <= 0xFFFF_FFFC || p == NULL) && !Wraps(Rounded(newSize), hdr, wordMod) ==> !res.Wild?
      ensures res.Null? || res.Aborted? ==> Valid() && mem == old(mem) && blocks == old(blocks) && bytes == old(bytes)
      ensures !Wraps(Rounded(newSize), hdr, wordMod) && res.Ptr? && p == NULL ==>
                res.p >= hdr && Moved(old(Live(mem, blocks)), Live(mem, blocks), hdr, NULL, res.p - hdr, Rounded(newSize))
      ensures !Wraps(Rounded(newSize), hdr, wordMod) && p != NULL && old(Live(mem, blocks))[p - hdr] != newSize ==>
                Relocated(old(Live(mem, blocks)), old(bytes), Live(mem, blocks), bytes, hdr, p, newSize, res)
      ensures !Wraps(Rounded(newSize), hdr, wordMod) ==>
                Untouched(old(Live(mem, blocks)), old(bytes), Live(mem, blocks), bytes, hdr, p)
    {
      hide HeapOk, Rounded, Owned, Live, Payload, Moved, Untouched, NoFit, NoneChosen, First, Granted, Sound, InSpace, Wraps, MapLen, FreshRegion, Serves, TableFull, Relocated;
      ghost var live := Live(mem, blocks);
      NothingTouched(live, bytes, hdr, p);
      if p == NULL {
        res := Malloc(newSize, mapped);
        if res.Ptr? && !Wraps(Rounded(newSize), hdr, wordMod) {
          JustAdded(live, Live(mem, blocks), bytes, hdr, res.p - hdr, Rounded(newSize));
        }
        return;
      }
      LiveIs(mem, blocks, p - hdr);
      if mem[p - hdr].size == newSize {
        return Ptr(p);
      }
      res := MoveTo(p, newSize, mapped);
    }

    /** Allocate, copy, free. */
    method MoveTo(p: nat, newSize: nat, mapped: int) returns (res: Result)
      requires Valid() && newSize < wordMod
      requires p >= hdr && p - hdr in Live(mem, blocks)
      requires mapped >= 0 ==> FreshRegion(mapped, MapLen(Rounded(newSize), hdr, wordMod))
      modifies this
      ensures !Wraps(Rounded(newSize), hdr, wordMod) ==> Valid()
      ensures res.Ptr? || res.Wild? <==> old(Serves(mem, blocks, |memory|, mapped, newSize, hdr, wordMod))
      ensures res.Aborted? <==> old(TableFull(mem, blocks, |memory|, newSize, hdr, wordMod))
      ensures newSize <= 0xFFFF_FFFC && !Wraps(Rounded(newSize), hdr, wordMod) ==> !res.Wild?
      ensures res.Null? || res.Aborted? ==> Valid() && mem == old(mem) && blocks == old(blocks) && bytes == old(bytes)
      ensures !Wraps(Rounded(newSize), hdr, wordMod) ==>
                && Relocated(old(Live(mem, blocks)), old(bytes), Live(mem, blocks), bytes, hdr, p, newSize, res)
                && Untouched(old(Live(mem, blocks)), old(bytes), Live(mem, blocks), bytes, hdr, p)
    {
      hide HeapOk, Rounded, Owned, Live, Payload, Moved, Untouched, NoFit, SameRegions, FreshRegion, Copied, NoneChosen, First, Granted, Sound, InSpace, MapLen, Serves, TableFull, Relocated;
      ghost var live := Live(mem, blocks);
      NothingTouched(live, bytes, hdr, p);
      LiveIs(mem, blocks, p - hdr);
      var oldSize := mem[p - hdr].size;
      res := Malloc(newSize, mapped);
      if !res.Ptr? {
        if !res.Wild? {
          NotRelocated(live, bytes, hdr, p, newSize, res);
        }
        return;
      }
      if Wraps(Rounded(newSize), hdr, wordMod) {
        return Wild;
      }
      res := CopyAndFree(p, res.p, oldSize, newSize, live);
    }

    /** memcpy from the old allocation at p to the new one at q, and free. */
    method CopyAndFree(p: nat, q: nat, oldSize: nat, newSize: nat, ghost live: map<nat, nat>) returns (res: Result)
      requires Valid() && p >= hdr && p - hdr in live && oldSize == live[p - hdr]
      requires q >= hdr && q - hdr !in live && q - hdr in mem && Rounded(newSize) <= mem[q - hdr].size
      requires Live(mem, blocks) == live[q - hdr := mem[q - hdr].size]
      modifies this
      ensures Valid() && (res == Ptr(q) || res.Wild?) && (newSize <= 0xFFFF_FFFC ==> !res.Wild?)
      ensures Relocated(live, old(bytes), Live(mem, blocks), bytes, hdr, p, newSize, res)
      ensures Untouched(live, old(bytes), Live(mem, blocks), bytes, hdr, p)
    {
      hide HeapOk, Rounded, Owned, Live, Payload, Moved, Untouched, Copied, InSpace, Relocated;
      var n := Min(newSize, oldSize);
      if newSize <= 0xFFFF_FFFC {
        Enough(newSize);
      }
      JustAdded(live, Live(mem, blocks), bytes, hdr, q - hdr, Rounded(newSize));
      if n > mem[q - hdr].size {
        TooSmall(live, Live(mem, blocks), bytes, hdr, p, newSize, q - hdr);
        return Wild;
      }
      CopyOk(mem, blocks, hdr, live, q - hdr, n, bytes, p, Rounded(newSize));
      bytes := Copied(bytes, q, p, n);
      LiveIs(mem, blocks, p - hdr);
      Free(p);
      res := Ptr(q);
      NowRelocated(live, old(bytes), Live(mem, blocks), bytes, hdr, p, newSize, res);
    }

    /** On a machine with 32-bit pointers malloc(0xFFFFFFF0) returns a pointer, when no block
        can be mapped, exactly if some chunk passes and the first one is not the last of its
        block; and then a following malloc(16) returns the same one: the chunk was never marked as taken. */
    method SameTwice() returns (p: Result, q: Result)
      requires Valid() && hdr == 16
      modifies this`mem, this`memory, this`blocks
      ensures p.Ptr? <==> exists a :: First(old(mem), old(blocks), 0xFFFF_FFF0, hdr, wordMod, a)
                                      && a in old(mem) && old(mem)[a].next != NULL
      ensures p.Ptr? ==> q == p
    {
      hide HeapOk, Live, Rounded, InSpace, NoneChosen, NoFit, Granted, Sound, First, CanFit, MapLen, FreshRegion;
      LargestRounded();
      p := Malloc(0xFFFF_FFF0, -1);
      if !p.Ptr? {
        return p, Null;
      }
      assert First(mem, blocks, 0xFFFF_FFF0, hdr, wordMod, p.p - hdr);
      SameChoice(mem, blocks, wordMod, p.p - hdr);
      q := Malloc(16, -1);
      FirstUnique(old(mem), old(blocks), 16, hdr, wordMod, p.p - hdr, q.p - hdr);
    }
  }

  lemma LargestRounded()
    ensures Rounded(0xFFFF_FFF0) == 0xFFFF_FFF0 && Rounded(16) == 16
  {
  }

  /** The wrapped test for 0xFFFFFFF0 and the right one for 16 agree on every chunk. */
  lemma SameChoice(mem: Memory, blocks: seq<Block>, wordMod: nat, a: nat)
    requires wordMod == 0x1_0000_0000 && First(mem, blocks, 0xFFFF_FFF0, 16, wordMod, a)
    ensures First(mem, blocks, 16, 16, wordMod, a) && !NoneChosen(mem, blocks, 16, 16, wordMod)
  {
    hide CanFit;
    forall x
      ensures Chosen(mem, x, 0xFFFF_FFF0, 16, wordMod) <==> Chosen(mem, x, 16, 16, wordMod)
    {
      if x in mem {
        SameTest(mem[x].size);
      }
    }
    var i: nat, j: nat :| FirstAt(mem, blocks, 0xFFFF_FFF0, 16, wordMod, i, j) && a == blocks[i].chain[j];
    assert FirstAt(mem, blocks, 16, 16, wordMod, i, j);
    FirstIs(mem, blocks, 16, 16, wordMod, i, j);
  }

  lemma SameTest(size: nat)
    ensures CanFit(size, 0xFFFF_FFF0, 16, 0x1_0000_0000) <==> CanFit(size, 16, 16, 0x1_0000_0000)
  {
  }

  lemma FirstUnique(mem: Memory, blocks: seq<Block>, r: nat, hdr: nat, wordMod: nat, a: nat, b: nat)
    requires wordMod > 0 && First(mem, blocks, r, hdr, wordMod, a) && First(mem, blocks, r, hdr, wordMod, b)
    ensures a == b
  {
    hide Chosen;
    var i: nat, j: nat :| FirstAt(mem, blocks, r, hdr, wordMod, i, j) && a == blocks[i].chain[j];
    var k: nat, l: nat :| FirstAt(mem, blocks, r, hdr, wordMod, k, l) && b == blocks[k].chain[l];
    assert a in blocks[i].chain && b in blocks[k].chain;
  }

  /** Such a heap: two chunks, the first one free and of 16 bytes, which passes the test for
      0xFFFFFFF0 bytes. */
  lemma WrappedRequestPasses()
    ensures var mem: Memory := map[0x1000 := Header(16, false, 0x1020, NULL), 0x1020 := Header(4048, true, NULL, 0x1000)];
      var blocks := [Block(0x1000, 4096, [0x1000, 0x1020])];
      && Described(mem, [0x1000], blocks, 16, 0x1_0000_0000)
      && First(mem, blocks, 0xFFFF_FFF0, 16, 0x1_0000_0000, 0x1000) && NoFit(mem, blocks, 0xFFFF_FFF0)
  {
    var mem: Memory := map[0x1000 := Header(16, false, 0x1020, NULL), 0x1020 := Header(4048, true, NULL, 0x1000)];
    var b := Block(0x1000, 4096, [0x1000, 0x1020]);
    assert LinkOk(mem, b, 16, 0) && LinkOk(mem, b, 16, 1) && PairOk(mem, b, 0);
    assert BlockOk(mem, b, 16);
    assert FirstAt(mem, [b], 0xFFFF_FFF0, 16, 0x1_0000_0000, 0, 0);
  }

  lemma RoundedRange(sz: nat)
    ensures Rounded(sz) < 0x1_0000_0000
  {
  }

  lemma NoWrap(r: nat, hdr: nat, wordMod: nat)
    ensures Wraps(r, hdr, wordMod) <==> r + hdr >= wordMod
  {
  }

  lemma RoundedNothing()
    ensures Rounded(0) == 0
  {
  }

  lemma FirstIs(mem: Memory, blocks: seq<Block>, r: nat, hdr: nat, wordMod: nat, i: nat, j: nat)
    requires wordMod > 0 && FirstAt(mem, blocks, r, hdr, wordMod, i, j)
    ensures i < |blocks| && j < |blocks[i].chain| && First(mem, blocks, r, hdr, wordMod, blocks[i].chain[j])
    ensures Chosen(mem, blocks[i].chain[j], r, hdr, wordMod) && blocks[i].chain[j] in Owned(blocks)
    ensures !NoneChosen(mem, blocks, r, hdr, wordMod)
  {
    OwnedAt(blocks, i, j);
  }

  /** A new block of the mapped length passes the test that is not repeated for it. */
  lemma MapLenPasses(r: nat, hdr: nat, wordMod: nat, size: nat)
    requires Layout(hdr, wordMod) && r % ALIGNMENT == 0 && r < 0x1_0000_0000 && size + hdr + PAGE <= wordMod
    requires size + hdr == MapLen(r, hdr, wordMod)
    ensures CanFit(size, r, hdr, wordMod)
  {
    CanFitMeans(size, r, hdr, wordMod);
    SmallMod(r + hdr, wordMod);
  }

  lemma NoneFirst(mem: Memory, blocks: seq<Block>, r: nat, hdr: nat, wordMod: nat)
    requires wordMod > 0 && NoneChosen(mem, blocks, r, hdr, wordMod)
    ensures forall x :: !First(mem, blocks, r, hdr, wordMod, x)
  {
    forall i: nat, j: nat | FirstAt(mem, blocks, r, hdr, wordMod, i, j)
      ensures false
    {
      FirstIs(mem, blocks, r, hdr, wordMod, i, j);
    }
  }

  lemma NewBlockLinks(r: nat, hdr: nat, wordMod: nat, mapped: nat)
    requires Layout(hdr, wordMod) && r < 0x1_0000_0000 && Wraps(r, hdr, wordMod) && mapped >= PAGE
    ensures var c := Header(MapLen(r, hdr, wordMod) - hdr, false, NULL, NULL);
            KeepsLinks(c, mapped, r + hdr - wordMod) <==> r + hdr == wordMod + 12
  {
    SmallMod(r + hdr, wordMod);
  }

  /** The header of the chunk to be cut off lies so many words into the chunk's own. */
  lemma WrappedTarget(a: nat, r: nat, hdr: nat, wordMod: nat, size: nat)
    requires Layout(hdr, wordMod) && r % ALIGNMENT == 0 && r < 0x1_0000_0000 && Wraps(r, hdr, wordMod)
    requires PAGE <= a && a + hdr + size <= wordMod && r + DEVIDE_SPACE_BOUNDARY - wordMod <= size
    ensures hdr == 16 && r + hdr <= wordMod + 12
    ensures (a + r + hdr) % wordMod == a + (r + hdr - wordMod)
    ensures (r + hdr - wordMod) % 4 == 0 && 0 <= (r + hdr - wordMod) / 4 <= 3
    ensures (size - r - hdr) % wordMod == size - (r + hdr - wordMod)
  {
    SmallMod(a + r + hdr, wordMod);
    var x := size - (r + hdr - wordMod);
    assert size - r - hdr == x - wordMod;
  }

  /** Up to chunk j the headers are as before, and chunk j claims a size of r. */
  predicate Overstated(mem: Memory, mem': Memory, b: Block, j: nat, r: nat)
    requires j < |b.chain|
  {
    && b.chain[j] in mem' && mem'[b.chain[j]].size == r
    && forall m :: 0 <= m < j ==> HeaderKept(mem, mem', b.chain[m])
  }

  lemma EarlierKept(mem: Memory, mem': Memory, b: Block, hdr: nat, j: nat, r: nat)
    requires ChainOk(mem, b, hdr) && hdr > 0 && j < |b.chain| && b.chain[j] in mem
    requires b.chain[j] in mem' && mem'[b.chain[j]].size == r
    requires forall x :: x in mem && x != b.chain[j] && x != mem[b.chain[j]].next ==> x in mem' && mem'[x] == mem[x]
    ensures Overstated(mem, mem', b, j, r)
  {
    NextInMemory(mem, b, hdr, j);
    Distinct(mem, b, hdr);
    forall m | 0 <= m < j
      ensures HeaderKept(mem, mem', b.chain[m])
    {
      Inside(mem, b, hdr, m);
    }
  }

  predicate HeaderKept(mem: Memory, mem': Memory, x: nat) {
    x in mem && x in mem' && mem'[x] == mem[x]
  }

  /** Whatever describes the heap follows the same links to the same chunk. */
  lemma {:induction false} SameWalk(mem: Memory, mem': Memory, b: Block, c: Block, hdr: nat, j: nat, m: nat)
    requires ChainOk(mem, b, hdr) && ChainOk(mem', c, hdr) && b.base == c.base && m <= j < |b.chain|
    requires forall k :: 0 <= k < j ==> HeaderKept(mem, mem', b.chain[k])
    requires forall x :: x in b.chain ==> x != NULL
    ensures m < |c.chain| && c.chain[m] == b.chain[m]
    decreases m
  {
    if m > 0 {
      SameWalk(mem, mem', b, c, hdr, j, m - 1);
      assert HeaderKept(mem, mem', b.chain[m - 1]);
      assert LinkOk(mem, b, hdr, m - 1) && LinkOk(mem', c, hdr, m - 1);
      assert b.chain[m] in b.chain;
    }
  }

  /** A chunk that claims more than the address space fits no description. */
  lemma OverstatedUnsound(mem: Memory, mem': Memory, memory: seq<nat>, blocks: seq<Block>, hdr: nat, wordMod: nat, i: nat, j: nat, r: nat)
    requires Described(mem, memory, blocks, hdr, wordMod) && i < |blocks| && j < |blocks[i].chain|
    requires Overstated(mem, mem', blocks[i], j, r) && Wraps(r, hdr, wordMod)
    ensures !Sound(mem', memory, hdr, wordMod)
    ensures forall a :: !Granted(mem', memory, hdr, wordMod, a, r)
  {
    forall bs | Described(mem', memory, bs, hdr, wordMod)
      ensures false
    {
      var b, c := blocks[i], bs[i];
      assert BlockOk(mem, b, hdr) && BlockOk(mem', c, hdr);
      forall x | x in b.chain
        ensures x != NULL
      {
        var l :| 0 <= l < |b.chain| && b.chain[l] == x;
        Inside(mem, b, hdr, l);
      }
      SameWalk(mem, mem', b, c, hdr, j, j);
      Inside(mem', c, hdr, j);
    }
  }

  lemma GrantedNow(mem: Memory, memory: seq<nat>, blocks: seq<Block>, hdr: nat, wordMod: nat, a: nat, r: nat)
    requires Described(mem, memory, blocks, hdr, wordMod) && a in Live(mem, blocks) && r <= Live(mem, blocks)[a]
    ensures Sound(mem, memory, hdr, wordMod) && Granted(mem, memory, hdr, wordMod, a, r)
  {
  }

  /** A chunk that is marked free is nobody's allocation. */
  lemma NotGranted(mem: Memory, memory: seq<nat>, blocks: seq<Block>, hdr: nat, wordMod: nat, a: nat, r: nat)
    requires Described(mem, memory, blocks, hdr, wordMod) && a in mem && !mem[a].taken
    ensures Sound(mem, memory, hdr, wordMod) && !Granted(mem, memory, hdr, wordMod, a, r)
  {
  }

  /** The chunk behind a chunk is in memory, and is another one. */
  lemma NextInMemory(mem: Memory, b: Block, hdr: nat, j: nat)
    requires ChainOk(mem, b, hdr) && hdr > 0 && j < |b.chain|
    ensures b.chain[j] in mem
    ensures var n := mem[b.chain[j]].next;
      n != NULL ==>
        && j + 1 < |b.chain| && n == b.chain[j + 1] && n in mem && n != b.chain[j] && mem[n].prev == b.chain[j]
        && (forall m :: 0 <= m <= j ==> b.chain[m] != n)
        && var c := mem[n].next; c != NULL ==> c in mem && c != b.chain[j] && c != n && mem[c].prev == n
  {
    assert LinkOk(mem, b, hdr, j);
    Distinct(mem, b, hdr);
    if j + 1 < |b.chain| {
      assert LinkOk(mem, b, hdr, j + 1);
    }
    if j + 2 < |b.chain| {
      assert LinkOk(mem, b, hdr, j + 2);
    }
  }

  /** What became of the live allocation at p: its successor has at least the rounded size
      and begins with the bytes; or it stayed, either for want of memory or because the
      successor is too small for them. */
  ghost predicate Relocated(live: map<nat, nat>, bytes: nat -> int, live': map<nat, nat>, bytes': nat -> int, hdr: nat, p: nat, newSize: nat, res: Result)
    requires p >= hdr && p - hdr in live
  {
    var n := Min(newSize, live[p - hdr]);
    match res
    case Ptr(q) =>
      && q >= hdr && Moved(live, live', hdr, p, q - hdr, Rounded(newSize))
      && n <= live'[q - hdr] && Payload(bytes', q, n) == Payload(bytes, p, n)
    case Wild => exists a :: Moved(live, live', hdr, NULL, a, Rounded(newSize)) && live'[a] < n && bytes' == bytes
    case _ => live' == live && bytes' == bytes
  }

  lemma NotRelocated(live: map<nat, nat>, bytes: nat -> int, hdr: nat, p: nat, newSize: nat, res: Result)
    requires p >= hdr && p - hdr in live && (res.Null? || res.Aborted?)
    ensures Relocated(live, bytes, live, bytes, hdr, p, newSize, res)
  {
  }

  lemma TooSmall(live: map<nat, nat>, live': map<nat, nat>, bytes: nat -> int, hdr: nat, p: nat, newSize: nat, a: nat)
    requires p >= hdr && p - hdr in live && Moved(live, live', hdr, NULL, a, Rounded(newSize))
    requires live'[a] < Min(newSize, live[p - hdr])
    ensures Relocated(live, bytes, live', bytes, hdr, p, newSize, Wild)
  {
  }

  lemma NowRelocated(live: map<nat, nat>, bytes: nat -> int, live': map<nat, nat>, bytes': nat -> int, hdr: nat, p: nat, newSize: nat, res: Result)
    requires p >= hdr && p - hdr in live && res.Ptr? && res.p >= hdr
    requires Moved(live, live', hdr, p, res.p - hdr, Rounded(newSize))
    requires var n := Min(newSize, live[p - hdr]); n <= live'[res.p - hdr] && Payload(bytes', res.p, n) == Payload(bytes, p, n)
    ensures Relocated(live, bytes, live', bytes', hdr, p, newSize, res)
  {
  }

  /** What a fresh allocation, a copy into it and the release of the old one amount to. */
  lemma CopyOk(mem: Memory, blocks: seq<Block>, hdr: nat, live: map<nat, nat>, a: nat, n: nat, bytes: nat -> int, p: nat, least: nat)
    requires HeapOk(mem, blocks, hdr) && a !in live && a in mem && n <= mem[a].size && least <= mem[a].size
    requires Live(mem, blocks) == live[a := mem[a].size] && p >= hdr && p - hdr in live
    ensures Moved(live, Live(mem, blocks) - {p - hdr}, hdr, p, a, least)
    ensures (Live(mem, blocks) - {p - hdr})[a] == mem[a].size
    ensures Untouched(live, bytes, Live(mem, blocks) - {p - hdr}, Copied(bytes, a + hdr, p, n), hdr, p)
    ensures Payload(Copied(bytes, a + hdr, p, n), a + hdr, n) == Payload(bytes, p, n)
    ensures p - hdr in Live(mem, blocks)
  {
    hide HeapOk, Live, Payload, Copied;
    OutOfTheWay(mem, blocks, hdr, live, a, n, bytes, p);
    CopiedPayload(bytes, a + hdr, p, n);
    assert p != NULL by {
      assert p >= hdr;
      HeapParts0(mem, blocks, hdr);
    }
  }

  lemma HeapParts0(mem: Memory, blocks: seq<Block>, hdr: nat)
    requires HeapOk(mem, blocks, hdr)
    ensures hdr > 0
  {
  }

  lemma NothingTouched(live: map<nat, nat>, bytes: nat -> int, hdr: nat, p: nat)
    ensures Untouched(live, bytes, live, bytes, hdr, p)
  {
  }

  lemma JustAdded(live: map<nat, nat>, live': map<nat, nat>, bytes: nat -> int, hdr: nat, a: nat, least: nat)
    requires a !in live && a in live' && live' == live[a := live'[a]] && least <= live'[a]
    ensures Moved(live, live', hdr, NULL, a, least)
    ensures forall p :: Untouched(live, bytes, live', bytes, hdr, p)
  {
  }

  /** The n bytes at p. */
  function Payload(bytes: nat -> int, p: nat, n: nat): seq<int> {
    seq(n, (k: nat) => bytes(p + k))
  }

  /** The payload memory after a memcpy. */
  function Copied(bytes: nat -> int, to: nat, from: nat, n: nat): nat -> int {
    (x: nat) => if to <= x < to + n then bytes(from + (x - to)) else bytes(x)
  }

  lemma CopiedPayload(bytes: nat -> int, to: nat, from: nat, n: nat)
    ensures Payload(Copied(bytes, to, from, n), to, n) == Payload(bytes, from, n)
  {
  }

  lemma CopiedElsewhere(bytes: nat -> int, to: nat, from: nat, n: nat, x: nat, m: nat)
    requires x + m <= to || to + n <= x
    ensures Payload(Copied(bytes, to, from, n), x, m) == Payload(bytes, x, m)
  {
  }

  /** The live allocation at p, if any, gave way to one of at least some size at a. */
  ghost predicate Moved(live: map<nat, nat>, live': map<nat, nat>, hdr: nat, p: nat, a: nat, least: nat) {
    && a !in live && a in live' && least <= live'[a]
    && live' == live[a := live'[a]] - (if p == NULL then {} else {p - hdr})
  }

  /** Every live allocation but the one at p keeps its size and its bytes. */
  ghost predicate Untouched(live: map<nat, nat>, bytes: nat -> int, live': map<nat, nat>, bytes': nat -> int, hdr: nat, p: nat) {
    forall x :: x in live && x + hdr != p ==>
      x in live' && live'[x] == live[x] && Payload(bytes', x + hdr, live[x]) == Payload(bytes, x + hdr, live[x])
  }

  /** Copying into a new allocation disturbs no other. */
  lemma OutOfTheWay(mem: Memory, blocks: seq<Block>, hdr: nat, live: map<nat, nat>, a: nat, n: nat, bytes: nat -> int, from: nat)
    requires HeapOk(mem, blocks, hdr) && a !in live && a in mem && n <= mem[a].size
    requires Live(mem, blocks) == live[a := mem[a].size]
    ensures forall x :: x in live ==>
              Payload(Copied(bytes, a + hdr, from, n), x + hdr, live[x]) == Payload(bytes, x + hdr, live[x])
  {
    hide HeapOk, Live, Payload, Copied;
    forall x | x in live
      ensures Payload(Copied(bytes, a + hdr, from, n), x + hdr, live[x]) == Payload(bytes, x + hdr, live[x])
    {
      var all := Live(mem, blocks);
      assert x in all && a in all && all[x] == live[x] && x != a;
      if x < a {
        LiveDisjoint(mem, blocks, hdr, x, a);
      } else {
        LiveDisjoint(mem, blocks, hdr, a, x);
      }
      CopiedElsewhere(bytes, a + hdr, from, n, x + hdr, live[x]);
    }
  }

  lemma Enough(sz: nat)
    requires sz <= 0xFFFF_FFFC
    ensures sz <= Rounded(sz)
  {
    RoundedCovers(sz);
  }

  lemma InsideTwice(mem0: Memory, m: Memory, mem: Memory, b0: Block, b: Block)
    requires OnlyInside(mem0, m, b0) && OnlyInside(m, mem, b) && b.base == b0.base && b.len == b0.len
    ensures OnlyInside(mem0, mem, b0)
  {
  }

  lemma Locate(blocks: seq<Block>, a: nat) returns (i: nat, j: nat)
    requires a in Owned(blocks)
    ensures i < |blocks| && j < |blocks[i].chain| && blocks[i].chain[j] == a
  {
    i :| 0 <= i < |blocks| && a in blocks[i].chain;
    j :| 0 <= j < |blocks[i].chain| && blocks[i].chain[j] == a;
  }

  /** Links that are not null lead to headers. */
  lemma LinksInMemory(mem: Memory, b: Block, hdr: nat, k: nat)
    requires ChainOk(mem, b, hdr) && k < |b.chain|
    ensures LinkOk(mem, b, hdr, k)
    ensures mem[b.chain[k]].prev != NULL ==> mem[b.chain[k]].prev in mem
    ensures mem[b.chain[k]].next != NULL ==> mem[b.chain[k]].next in mem
  {
    assert LinkOk(mem, b, hdr, k);
    if k > 0 {
      assert LinkOk(mem, b, hdr, k - 1);
    }
    if k + 1 < |b.chain| {
      assert LinkOk(mem, b, hdr, k + 1);
    }
  }

  lemma ReleaseTaken(mem: Memory, b: Block, hdr: nat, j: nat)
    requires ChainOk(mem, b, hdr) && hdr > 0 && j < |b.chain| && b.chain[j] in mem
    ensures SameTaken(mem, b, Marked(mem, b.chain[j], false), b, b.chain[j])
  {
  }

  /** After the walk back, everything before the run is as coalesced as it was. */
  lemma RunStarts(mem: Memory, mem': Memory, b: Block, hdr: nat, k: nat, j: nat)
    requires ChainOk(mem, b, hdr) && Coalesced(mem, b) && hdr > 0
    requires k <= j < |b.chain| && b.chain[j] in mem && mem' == Marked(mem, b.chain[j], false)
    requires forall n :: k <= n <= j ==> b.chain[n] in mem' && !mem'[b.chain[n]].taken
    requires k > 0 ==> b.chain[k - 1] in mem' && mem'[b.chain[k - 1]].taken
    ensures FreeRun(mem', b, k, j)
  {
    Distinct(mem, b, hdr);
    forall i | 0 <= i < k || j < i < |b.chain| - 1
      ensures i < |b.chain| - 1 && PairOk(mem', b, i)
    {
      assert PairOk(mem, b, i);
    }
  }

  /** When the chunk after the run's first is taken or missing, the run is one chunk. */
  lemma RunEnds(mem: Memory, b: Block, hdr: nat, k: nat, l: nat)
    requires FreeRun(mem, b, k, l)
    requires k + 1 < |b.chain| ==> b.chain[k + 1] in mem && mem[b.chain[k + 1]].taken
    ensures Coalesced(mem, b)
  {
    forall i | 0 <= i < |b.chain| - 1
      ensures PairOk(mem, b, i)
    {
      assert l == k;
      assert b.chain[k] in mem;
    }
  }

  lemma FreeHeap(mem: Memory, mem': Memory, blocks: seq<Block>, hdr: nat, i: nat, b': Block, a: nat)
    requires HeapOk(mem, blocks, hdr) && i < |blocks| && a in blocks[i].chain
    requires BlockOk(mem', b', hdr) && SameTaken(mem, blocks[i], mem', b', a) && OnlyInside(mem, mem', blocks[i])
    ensures HeapOk(mem', blocks[i := b'], hdr)
    ensures Live(mem', blocks[i := b']) == Live(mem, blocks) - {a}
    ensures SameRegions(blocks, blocks[i := b'])
  {
    var j :| 0 <= j < |blocks[i].chain| && blocks[i].chain[j] == a;
    HeapFrame(mem, mem', blocks, hdr, i, b');
    OthersAway(mem, blocks, hdr, i, j);
    LiveUpdate(mem, mem', blocks, hdr, i, b', a);
  }

  /** The mapped regions are the same ones. */
  ghost predicate SameRegions(bs: seq<Block>, bs': seq<Block>) {
    |bs| == |bs'| && forall i :: 0 <= i < |bs| ==> bs[i].base == bs'[i].base && bs[i].len == bs'[i].len
  }

  lemma OwnedAt(blocks: seq<Block>, i: nat, j: nat)
    requires i < |blocks| && j < |blocks[i].chain|
    ensures blocks[i].chain[j] in Owned(blocks)
  {
    var x := blocks[i].chain[j];
    assert x in blocks[i].chain;
  }

  lemma HeapParts(mem: Memory, blocks: seq<Block>, hdr: nat, i: nat, j: nat)
    requires HeapOk(mem, blocks, hdr) && i < |blocks| && j < |blocks[i].chain|
    ensures hdr > 0 && BlockOk(mem, blocks[i], hdr) && LinkOk(mem, blocks[i], hdr, j)
  {
    assert BlockOk(mem, blocks[i], hdr);
  }

  /** Block i's headers belong to no other block. */
  lemma OthersAway(mem: Memory, blocks: seq<Block>, hdr: nat, i: nat, j: nat)
    requires HeapOk(mem, blocks, hdr) && i < |blocks| && j < |blocks[i].chain|
    ensures forall k, x :: 0 <= k < |blocks| && k != i && x in blocks[k].chain ==> x != blocks[i].chain[j]
  {
    forall k, x | 0 <= k < |blocks| && k != i && x in blocks[k].chain
      ensures x != blocks[i].chain[j]
    {
      var l :| 0 <= l < |blocks[k].chain| && blocks[k].chain[l] == x;
      assert BlockOk(mem, blocks[i], hdr) && BlockOk(mem, blocks[k], hdr);
      Inside(mem, blocks[i], hdr, j);
      Inside(mem, blocks[k], hdr, l);
      assert if i < k then Apart(blocks[i], blocks[k]) else Apart(blocks[k], blocks[i]);
    }
  }

  /** Splitting a free chunk, seen from the whole heap. */
  lemma SplitHeap(mem: Memory, blocks: seq<Block>, hdr: nat, i: nat, j: nat, r: nat)
    requires HeapOk(mem, blocks, hdr) && i < |blocks| && j < |blocks[i].chain|
    requires var a := blocks[i].chain[j]; a in mem && !mem[a].taken && r + hdr <= mem[a].size
    ensures var a := blocks[i].chain[j];
            var mem', bs := SplitMem(mem, a, r, hdr), blocks[i := SplitBlock(blocks[i], j, a + r + hdr)];
            HeapOk(mem', bs, hdr) && a !in Live(mem, blocks) && Live(mem', bs) == Live(mem, blocks)[a := r]
  {
    hide SplitMem;
    HeapParts(mem, blocks, hdr, i, j);
    var b := blocks[i];
    var a := b.chain[j];
    var n := a + r + hdr;
    var mem', b' := SplitMem(mem, a, r, hdr), SplitBlock(b, j, n);
    SplitKeeps(mem, b, hdr, j, r);
    SplitValues(mem, b, hdr, j, r);
    SplitCoalesced(mem, b, hdr, j, r);
    ChainInMemory(mem, b, hdr);
    HeapFrame(mem, mem', blocks, hdr, i, b');
    OthersAway(mem, blocks, hdr, i, j);
    assert forall x :: x in b'.chain <==> x in b.chain || x == n;
    LiveUpdate(mem, mem', blocks, hdr, i, b', a);
  }

  /** Marking a free chunk taken. */
  lemma TakeHeap(mem: Memory, blocks: seq<Block>, hdr: nat, i: nat, j: nat)
    requires HeapOk(mem, blocks, hdr) && i < |blocks| && j < |blocks[i].chain|
    requires var a := blocks[i].chain[j]; a in mem && !mem[a].taken
    ensures var a := blocks[i].chain[j];
            var mem' := Marked(mem, a, true);
            && HeapOk(mem', blocks, hdr) && a !in Live(mem, blocks)
            && Live(mem', blocks) == Live(mem, blocks)[a := mem[a].size]
  {
    HeapParts(mem, blocks, hdr, i, j);
    var b := blocks[i];
    var a := b.chain[j];
    var mem' := Marked(mem, a, true);
    MarkKeeps(mem, b, hdr, j, true);
    HeapFrame(mem, mem', blocks, hdr, i, b);
    OthersAway(mem, blocks, hdr, i, j);
    ChainInMemory(mem, b, hdr);
    LiveUpdate(mem, mem', blocks, hdr, i, b, a);
    assert blocks[i := b] == blocks;
  }

  lemma NewBlockKeeps(mem: Memory, mem': Memory, blocks: seq<Block>, hdr: nat, b: Block)
    requires HeapOk(mem, blocks, hdr) && b.base > 0 && b.chain == [b.base] && b.len >= hdr
    requires forall c :: c in blocks ==> c.base + c.len <= b.base || b.base + b.len <= c.base
    requires mem' == mem[b.base := Header(b.len - hdr, false, NULL, NULL)]
    ensures HeapOk(mem', blocks + [b], hdr)
    ensures Live(mem', blocks + [b]) == Live(mem, blocks)
  {
    var bs := blocks + [b];
    forall k, x | 0 <= k < |blocks| && x in blocks[k].chain
      ensures x in mem && x in mem' && mem'[x] == mem[x]
    {
      var l :| 0 <= l < |blocks[k].chain| && blocks[k].chain[l] == x;
      assert BlockOk(mem, blocks[k], hdr) && blocks[k] in blocks;
      Inside(mem, blocks[k], hdr, l);
    }
    forall k | 0 <= k < |bs|
      ensures BlockOk(mem', bs[k], hdr)
    {
      if k < |blocks| {
        assert BlockOk(mem, blocks[k], hdr);
        ChainFrame(mem, mem', blocks[k], hdr);
      } else {
        assert LinkOk(mem', b, hdr, 0);
      }
    }
    forall i, j | 0 <= i < j < |bs|
      ensures Apart(bs[i], bs[j])
    {
      if j < |blocks| {
        assert Apart(blocks[i], blocks[j]);
      } else {
        assert blocks[i] in blocks;
      }
    }
    NewBlockLive(mem, mem', blocks, b);
  }

  lemma NewBlockLive(mem: Memory, mem': Memory, blocks: seq<Block>, b: Block)
    requires b.chain == [b.base] && b.base in mem' && !mem'[b.base].taken
    requires forall k, x :: 0 <= k < |blocks| && x in blocks[k].chain ==>
               x in mem && x in mem' && mem'[x] == mem[x]
    ensures Live(mem', blocks + [b]) == Live(mem, blocks)
  {
    var bs := blocks + [b];
    forall x
      ensures x in Live(mem', bs) <==> x in Live(mem, blocks)
      ensures x in Live(mem, blocks) ==> Live(mem', bs)[x] == Live(mem, blocks)[x]
    {
      if x in Owned(blocks) {
        var k :| 0 <= k < |blocks| && x in blocks[k].chain;
        assert bs[k] == blocks[k];
      }
    }
  }

  lemma LiveIs(mem: Memory, blocks: seq<Block>, x: nat)
    requires x in Live(mem, blocks)
    ensures x in mem && x in Owned(blocks) && Live(mem, blocks)[x] == mem[x].size
  {
  }
}
