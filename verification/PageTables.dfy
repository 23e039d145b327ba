/** The x86_64 prekernel's page-table builder over the boot bump allocator: three table
    levels made on demand, 2 MiB pages at the bottom. */
module PageTables {
  import opened Arithmetic
  import opened Machine

  const PAGE: nat := 0x1000
  const MB2: nat := 0x20_0000
  const GB1: nat := 0x4000_0000
  /** Table addresses are cut to 48 bits when read back from an entry. */
  const ADDR48: nat := 0x1_0000_0000_0000
  /** 2 MiB frames of the 48-bit address space. */
  const FRAMES: nat := 0x800_0000

  datatype Option<T> = None | Some(value: T)

  //////////////////////////////////////////////////////////////////////////////
  // The bump allocator
  //////////////////////////////////////////////////////////////////////////////

  function RoundCeil(x: nat, to: nat): (r: nat)
    requires to > 0
    ensures x <= r < x + to && r % to == 0
  {
    RoundCeilBounds(x, to);
    (x + (to - 1)) / to * to
  }

  lemma RoundCeilBounds(x: nat, to: nat)
    requires to > 0
    ensures var r := (x + (to - 1)) / to * to; x <= r < x + to && r % to == 0
  {
    var q := (x + (to - 1)) / to;
    assert x + (to - 1) == q * to + (x + (to - 1)) % to;
    DivUnique(q * to, to, q, 0);
  }

  lemma FarApart(p: int, q: int, to: nat)
    requires p < q
    ensures p * to + to <= q * to
  {
    MulMonotone(p + 1, q, to);
    assert (p + 1) * to == p * to + to;
  }

  lemma RoundCeilUnique(x: nat, to: nat, r: nat)
    requires to > 0 && x <= r < x + to && r % to == 0
    ensures RoundCeil(x, to) == r
  {
    var c := RoundCeil(x, to);
    var p, q := c / to, r / to;
    assert c == p * to && r == q * to;
    if p < q {
      FarApart(p, q, to);
    } else if q < p {
      FarApart(q, p, to);
    }
  }

  class Palloc {
    const start: nat
    const end: nat
    var next: nat

    constructor (start: nat, size: nat)
      requires start > 0
      ensures this.start == start && end == start + size && next == start
    {
      this.start := start;
      end := start + size;
      next := start;
    }

    /** palloc: never returns once the area is used up, so that is its precondition. */
    method Alloc(size: nat) returns (res: nat)
      requires next < end
      modifies this
      ensures res == old(next) && next == old(next) + RoundCeil(size, 0x10)
    {
      res := next;
      next := next + RoundCeil(size, 0x10);
    }

    /** One page at a page boundary: the page after everything handed out before. */
    method AllocPage() returns (res: nat)
      requires next % 0x10 == 0 && RoundCeil(next, PAGE) < end
      modifies this
      ensures res == RoundCeil(old(next), PAGE) && next == res + PAGE
    {
      hide RoundCeil;
      WholePage(next);
      if next % PAGE != 0 {
        PadIsAligned(next);
        var _ := Alloc(PAGE - next % PAGE);
      }
      res := Alloc(PAGE);
    }
  }

  lemma WholePage(next: nat)
    ensures RoundCeil(PAGE, 0x10) == PAGE
    ensures next % PAGE == 0 ==> RoundCeil(next, PAGE) == next
  {
    hide RoundCeil;
    RoundCeilUnique(PAGE, 0x10, PAGE);
    if next % PAGE == 0 {
      RoundCeilUnique(next, PAGE, next);
    }
  }

  lemma PadIsAligned(next: nat)
    requires next % 0x10 == 0 && next % PAGE != 0
    ensures RoundCeil(PAGE - next % PAGE, 0x10) == PAGE - next % PAGE
    ensures next + (PAGE - next % PAGE) == RoundCeil(next, PAGE)
  {
    hide RoundCeil;
    var pad := PAGE - next % PAGE;
    assert pad % 0x10 == 0;
    RoundCeilUnique(pad, 0x10, pad);
    RoundCeilUnique(next, PAGE, next + pad);
  }

  //////////////////////////////////////////////////////////////////////////////
  // Tables
  //////////////////////////////////////////////////////////////////////////////

  type Table = t: seq<uint64> | |t| == 512 witness seq(512, _ => 0)

  type Tables = map<nat, Table>

  /** VM_VADDR_OFFSET_AT_LEVEL for the three levels in use. */
  function Index3(v: nat): nat { (v / 0x80_0000_0000) % 512 }
  function Index2(v: nat): nat { (v / GB1) % 512 }
  function Index1(v: nat): nat { (v / MB2) % 512 }

  /** The 2 MiB frame of a virtual address: only 48 bits take part in translation. */
  function Frame(v: nat): (f: nat)
    ensures f < FRAMES
  {
    (v / MB2) % FRAMES
  }

  lemma FrameIndices(v: nat)
    ensures Index1(v) == Frame(v) % 512
    ensures Index2(v) == (Frame(v) / 512) % 512
    ensures Index3(v) == Frame(v) / 512 / 512
  {
    var w := v / MB2;
    DivDiv(v, 512, MB2);
    DivDiv(v, 512 * 512, MB2);
    assert v / GB1 == w / 512 && v / 0x80_0000_0000 == w / (512 * 512);
    var q, f := w / FRAMES, w % FRAMES;
    assert w == q * FRAMES + f;
    var a, r := f / (512 * 512), f % (512 * 512);
    var b, c := r / 512, r % 512;
    DivUnique(f, 512, a * 512 + b, c);
    DivUnique(a * 512 + b, 512, a, b);
    DivUnique(w, 512, (q * 512 + a) * 512 + b, c);
    DivUnique(w / 512, 512, q * 512 + a, b);
    DivUnique(w, 512 * 512, q * 512 + a, r);
    DivUnique(q * 512 + a, 512, q, a);
  }

  /** An entry that points to a table: present and writable. */
  function TableEntry(addr: nat): nat { addr + 0x3 }

  /** An entry that maps a 2 MiB page. */
  function PageEntry(phys: nat): nat { phys + 0x83 }

  /** The pointer the builder reads back from a table entry. */
  function TableAddr(desc: nat): nat { (desc / PAGE * PAGE) % ADDR48 }

  lemma TableAddrOf(addr: nat)
    requires addr % PAGE == 0 && addr < ADDR48
    ensures TableAddr(TableEntry(addr)) == addr
  {
    DivUnique(addr + 3, PAGE, addr / PAGE, 3);
    DivUnique(addr, ADDR48, 0, addr);
  }

  //////////////////////////////////////////////////////////////////////////////
  // What the processor makes of the tables
  //////////////////////////////////////////////////////////////////////////////

  /** Present, writable, not for user mode, and not barred from execution (bits 0, 1, 2
      and 63). */
  predicate Usable(e: nat) { e % 8 == 3 && e < 0x8000_0000_0000_0000 }

  predicate LargePage(e: nat) { (e / 0x80) % 2 == 1 }

  /** Bits 12 to 51 of an entry. */
  function Pointed(e: nat): nat { (e / PAGE * PAGE) % 0x10_0000_0000_0000 }

  /** Bits 21 to 51 of an entry. */
  function PageBase(e: nat): nat { (e / MB2 * MB2) % 0x10_0000_0000_0000 }

  /** The hardware walk of the kernel, for any kind of access: three entries, the last one
      a 2 MiB page. */
  function Translate(tables: Tables, root: nat, v: nat): Option<nat> {
    if root !in tables then None else
    var e3 := tables[root][Index3(v)];
    if !Usable(e3) || LargePage(e3) || Pointed(e3) !in tables then None else
    var e2 := tables[Pointed(e3)][Index2(v)];
    if !Usable(e2) || LargePage(e2) || Pointed(e2) !in tables then None else
    var e1 := tables[Pointed(e2)][Index1(v)];
    if !Usable(e1) || !LargePage(e1) then None
    else Some(PageBase(e1) + v % MB2)
  }

  lemma EntryBits(addr: nat)
    requires addr % PAGE == 0 && addr < ADDR48
    ensures var e := TableEntry(addr); Usable(e) && !LargePage(e) && Pointed(e) == addr
  {
    var a := addr / PAGE;
    DivUnique(addr + 3, 0x80, 32 * a, 3);
    DivUnique(addr + 3, 8, 0x200 * a, 3);
    DivUnique(addr + 3, PAGE, a, 3);
    DivUnique(addr, 0x10_0000_0000_0000, 0, addr);
  }

  lemma PageBits(phys: nat)
    requires phys % MB2 == 0 && phys < ADDR48
    ensures var e := PageEntry(phys); Usable(e) && LargePage(e) && PageBase(e) == phys
  {
    var a := phys / MB2;
    assert phys == a * MB2;
    DivUnique(phys + 0x83, 0x80, 0x4000 * a + 1, 3);
    DivUnique(0x4000 * a + 1, 2, 0x2000 * a, 1);
    DivUnique(phys + 0x83, 8, 0x4_0000 * a + 0x10, 3);
    DivUnique(phys + 0x83, MB2, a, 0x83);
    DivUnique(phys, 0x10_0000_0000_0000, 0, phys);
  }

  //////////////////////////////////////////////////////////////////////////////
  // The intended contents
  //////////////////////////////////////////////////////////////////////////////

  /** A directory: entry j points to the table of child 512 * h + j, if it exists. */
  function Directory(children: map<nat, nat>, h: nat): (t: seq<int>)
    ensures |t| == 512
  {
    seq(512, j requires 0 <= j < 512 =>
      if 512 * h + j in children then TableEntry(children[512 * h + j]) else 0)
  }

  /** A bottom table: entry k maps frame 512 * g + k, if it is mapped. */
  function Bottom(pages: map<nat, nat>, g: nat): (t: seq<int>)
    ensures |t| == 512
  {
    seq(512, k requires 0 <= k < 512 =>
      if 512 * g + k in pages then PageEntry(pages[512 * g + k]) else 0)
  }

  lemma DirectoryAt(children: map<nat, nat>, c: nat)
    ensures Directory(children, c / 512)[c % 512] == if c in children then TableEntry(children[c]) else 0
  {
    assert 512 * (c / 512) + c % 512 == c;
  }

  lemma BottomAt(pages: map<nat, nat>, f: nat)
    ensures Bottom(pages, f / 512)[f % 512] == if f in pages then PageEntry(pages[f]) else 0
  {
    assert 512 * (f / 512) + f % 512 == f;
  }

  lemma DirectoryAdd(children: map<nat, nat>, h: nat, c: nat, addr: nat)
    ensures Directory(children[c := addr], h) ==
            if c / 512 == h then Directory(children, h)[c % 512 := TableEntry(addr)] else Directory(children, h)
  {
    var t := Directory(children[c := addr], h);
    forall j | 0 <= j < 512
      ensures t[j] == if c / 512 == h && c % 512 == j then TableEntry(addr) else Directory(children, h)[j]
    {
      if 512 * h + j == c {
        DivUnique(c, 512, h, j);
      }
    }
  }

  lemma BottomAdd(pages: map<nat, nat>, g: nat, f: nat, phys: nat)
    ensures Bottom(pages[f := phys], g) ==
            if f / 512 == g then Bottom(pages, g)[f % 512 := PageEntry(phys)] else Bottom(pages, g)
  {
    var t := Bottom(pages[f := phys], g);
    forall k | 0 <= k < 512
      ensures t[k] == if f / 512 == g && f % 512 == k then PageEntry(phys) else Bottom(pages, g)[k]
    {
      if 512 * g + k == f {
        DivUnique(f, 512, g, k);
      }
    }
  }

  datatype Owner = Top | Middle(h: nat) | Leaf(g: nat)

  /** What the tables are for: the level-2 table of each 512 GiB window, the level-1 table
      of each 1 GiB window, the physical address of each mapped 2 MiB frame, and which
      table each address holds. */
  datatype Shape = Shape(middle: map<nat, nat>, leaf: map<nat, nat>, pages: map<nat, nat>, owner: map<nat, Owner>)

  const ZERO: Table := seq(512, _ => 0)

  predicate TableAt(tables: Tables, s: Shape, next: nat, addr: nat, o: Owner) {
    && addr in s.owner && s.owner[addr] == o && addr in tables
    && addr % PAGE == 0 && 0 < addr < next && addr < ADDR48
  }

  predicate MiddleOk(tables: Tables, s: Shape, next: nat, h: nat)
    requires h in s.middle
  {
    h < 512 && TableAt(tables, s, next, s.middle[h], Middle(h)) && tables[s.middle[h]] == Directory(s.leaf, h)
  }

  predicate LeafOk(tables: Tables, s: Shape, next: nat, g: nat)
    requires g in s.leaf
  {
    g / 512 in s.middle && TableAt(tables, s, next, s.leaf[g], Leaf(g)) && tables[s.leaf[g]] == Bottom(s.pages, g)
  }

  predicate PageOk(s: Shape, f: nat)
    requires f in s.pages
  {
    f / 512 in s.leaf && s.pages[f] % MB2 == 0 && s.pages[f] < ADDR48
  }

  ghost predicate Built(tables: Tables, root: nat, s: Shape, next: nat) {
    && (forall x :: x in s.owner ==> x < next)
    && TableAt(tables, s, next, root, Top) && tables[root] == Directory(s.middle, 0)
    && (forall h :: h in s.middle ==> MiddleOk(tables, s, next, h))
    && (forall g :: g in s.leaf ==> LeafOk(tables, s, next, g))
    && (forall f :: f in s.pages ==> PageOk(s, f))
  }

  /** The walk agrees with the intended map on every virtual address. */
  lemma WalkAgrees(tables: Tables, root: nat, s: Shape, next: nat, v: nat)
    requires Built(tables, root, s, next)
    ensures Translate(tables, root, v) ==
            if Frame(v) in s.pages then Some(s.pages[Frame(v)] + v % MB2) else None
  {
    hide Directory, Bottom, Frame, Index1, Index2, Index3, Usable, LargePage, Pointed, PageBase, TableEntry, PageEntry;
    var f := Frame(v);
    var g := f / 512;
    var h := g / 512;
    FrameIndices(v);
    ZeroBits();
    HighWindow(h);
    DirectoryAt(s.middle, h);
    if f in s.pages { assert PageOk(s, f); }
    if g in s.leaf { assert LeafOk(tables, s, next, g); }
    if h in s.middle {
      assert MiddleOk(tables, s, next, h);
      EntryBits(s.middle[h]);
      DirectoryAt(s.leaf, g);
      if g in s.leaf {
        EntryBits(s.leaf[g]);
        BottomAt(s.pages, f);
        if f in s.pages {
          PageBits(s.pages[f]);
        }
      }
    }
  }

  lemma ZeroBits()
    ensures !Usable(0)
  {
  }

  lemma HighWindow(h: nat)
    ensures h < 512 ==> h / 512 == 0 && h % 512 == h
  {
  }

  function SmallEntry(addr: nat): (e: uint64)
    requires addr < ADDR48
    ensures e == TableEntry(addr)
  {
    TableEntry(addr)
  }

  /** t is tables with a zeroed table at addr, entered at index i of its parent. */
  ghost predicate Linked(tables: Tables, t: Tables, parent: nat, i: nat, addr: nat)
    requires parent in tables && i < 512 && addr < ADDR48
  {
    && t.Keys == tables.Keys + {addr} && addr != parent
    && t[parent] == tables[parent][i := TableEntry(addr)]
    && (forall j :: 0 <= j < 512 ==> t[addr][j] == 0)
    && forall x :: x in tables && x != parent && x != addr ==> t[x] == tables[x]
  }

  /** Nothing known about addresses is lost. */
  ghost predicate Extends(tables: Tables, s: Shape, next: nat, t: Tables, s': Shape, next': nat) {
    && tables.Keys <= t.Keys && next <= next'
    && forall x :: x in s.owner ==> x in s'.owner && s'.owner[x] == s.owner[x]
  }

  lemma TableAtKeeps(tables: Tables, s: Shape, next: nat, t: Tables, s': Shape, next': nat, addr: nat, o: Owner)
    requires TableAt(tables, s, next, addr, o) && Extends(tables, s, next, t, s', next')
    ensures TableAt(t, s', next', addr, o) && addr < next && addr in tables
  {
  }

  lemma TablesApart(tables: Tables, s: Shape, next: nat, a: nat, o: Owner, b: nat, q: Owner)
    requires TableAt(tables, s, next, a, o) && TableAt(tables, s, next, b, q) && o != q
    ensures a != b
  {
  }

  /** A new middle table for window h, entered in the top table. */
  lemma MiddleStep(tables: Tables, t: Tables, root: nat, s: Shape, next: nat, h: nat, addr: nat)
    requires Built(tables, root, s, next) && h < 512 && h !in s.middle && root in tables
    requires next <= addr < ADDR48 - PAGE && addr % PAGE == 0
    requires Linked(tables, t, root, h, addr)
    ensures Built(t, root,
                  s.(middle := s.middle[h := addr], owner := s.owner[addr := Middle(h)]), addr + PAGE)
  {
    hide Directory, Bottom, TableEntry, TableAt;
    TableAtKeeps(tables, s, next, tables, s, next, root, Top);
    var s' := s.(middle := s.middle[h := addr], owner := s.owner[addr := Middle(h)]);
    var next' := addr + PAGE;
    assert Extends(tables, s, next, t, s', next');
    TableAtKeeps(tables, s, next, t, s', next', root, Top);
    DirectoryAdd(s.middle, 0, h, addr);
    HighWindow(h);
    forall g | g in s.leaf
      ensures g / 512 != h && LeafOk(t, s', next', g)
    {
      assert LeafOk(tables, s, next, g);
      TableAtKeeps(tables, s, next, t, s', next', s.leaf[g], Leaf(g));
      TablesApart(tables, s, next, s.leaf[g], Leaf(g), root, Top);
    }
    EmptyDirectory(s.leaf, h);
    assert t[addr] == ZERO;
    NewTableAt(t, s', next', addr, Middle(h));
    forall i | i in s'.middle
      ensures MiddleOk(t, s', next', i)
    {
      if i != h {
        assert MiddleOk(tables, s, next, i);
        TableAtKeeps(tables, s, next, t, s', next', s.middle[i], Middle(i));
        TablesApart(tables, s, next, s.middle[i], Middle(i), root, Top);
      }
    }
    forall f | f in s'.pages
      ensures PageOk(s', f)
    {
      assert PageOk(s, f);
    }
  }

  lemma EmptyDirectory(children: map<nat, nat>, h: nat)
    requires forall g :: g in children ==> g / 512 != h
    ensures Directory(children, h) == ZERO
  {
    var t := Directory(children, h);
    forall j | 0 <= j < 512
      ensures t[j] == 0
    {
      DivUnique(512 * h + j, 512, h, j);
    }
  }

  /** A new leaf table for window g, entered in its middle table. */
  lemma LeafStep(tables: Tables, t: Tables, root: nat, s: Shape, next: nat, g: nat, addr: nat)
    requires Built(tables, root, s, next) && g / 512 in s.middle && g !in s.leaf
    requires next <= addr < ADDR48 - PAGE && addr % PAGE == 0
    requires s.middle[g / 512] in tables && Linked(tables, t, s.middle[g / 512], g % 512, addr)
    ensures Built(t, root,
                  s.(leaf := s.leaf[g := addr], owner := s.owner[addr := Leaf(g)]), addr + PAGE)
  {
    hide Directory, Bottom, TableEntry, TableAt;
    assert MiddleOk(tables, s, next, g / 512);
    var m := s.middle[g / 512];
    TableAtKeeps(tables, s, next, tables, s, next, m, Middle(g / 512));
    var s' := s.(leaf := s.leaf[g := addr], owner := s.owner[addr := Leaf(g)]);
    var next' := addr + PAGE;
    assert Extends(tables, s, next, t, s', next');
    TableAtKeeps(tables, s, next, t, s', next', root, Top);
    TablesApart(tables, s, next, root, Top, m, Middle(g / 512));
    forall h | h in s'.middle
      ensures MiddleOk(t, s', next', h)
    {
      assert MiddleOk(tables, s, next, h);
      TableAtKeeps(tables, s, next, t, s', next', s.middle[h], Middle(h));
      DirectoryAdd(s.leaf, h, g, addr);
      if h != g / 512 {
        TablesApart(tables, s, next, s.middle[h], Middle(h), m, Middle(g / 512));
      }
    }
    forall f | f in s'.pages
      ensures f / 512 != g && PageOk(s', f)
    {
      assert PageOk(s, f);
    }
    EmptyBottom(s.pages, g);
    assert t[addr] == ZERO;
    NewTableAt(t, s', next', addr, Leaf(g));
    forall i | i in s'.leaf
      ensures LeafOk(t, s', next', i)
    {
      if i != g {
        assert LeafOk(tables, s, next, i);
        TableAtKeeps(tables, s, next, t, s', next', s.leaf[i], Leaf(i));
        TablesApart(tables, s, next, s.leaf[i], Leaf(i), m, Middle(g / 512));
      }
    }
  }

  lemma NewTableAt(tables: Tables, s: Shape, next: nat, addr: nat, o: Owner)
    requires addr in s.owner && s.owner[addr] == o && addr in tables
    requires addr % PAGE == 0 && 0 < addr < next && addr < ADDR48
    ensures TableAt(tables, s, next, addr, o)
  {
  }

  lemma EmptyBottom(pages: map<nat, nat>, g: nat)
    requires forall f :: f in pages ==> f / 512 != g
    ensures Bottom(pages, g) == ZERO
  {
    var t := Bottom(pages, g);
    forall k | 0 <= k < 512
      ensures t[k] == 0
    {
      DivUnique(512 * g + k, 512, g, k);
    }
  }

  /** Frame f mapped to phys: every other frame keeps what it had. */
  lemma PageStep(tables: Tables, root: nat, s: Shape, next: nat, f: nat, phys: nat)
    requires Built(tables, root, s, next) && f / 512 in s.leaf && phys % MB2 == 0 && phys < ADDR48
    ensures s.leaf[f / 512] in tables
    ensures var b := s.leaf[f / 512];
            Built(tables[b := tables[b][f % 512 := PageEntry(phys)]], root, s.(pages := s.pages[f := phys]), next)
  {
    hide Directory, Bottom, PageEntry;
    assert LeafOk(tables, s, next, f / 512);
    var b := s.leaf[f / 512];
    var entry: uint64 := SmallPageEntry(phys);
    var t := tables[b := tables[b][f % 512 := entry]];
    var s' := s.(pages := s.pages[f := phys]);
    forall h | h in s'.middle
      ensures MiddleOk(t, s', next, h)
    {
      assert MiddleOk(tables, s, next, h);
    }
    forall g | g in s'.leaf
      ensures LeafOk(t, s', next, g)
    {
      assert LeafOk(tables, s, next, g);
      BottomAdd(s.pages, g, f, phys);
    }
    forall i | i in s'.pages
      ensures PageOk(s', i)
    {
      if i != f {
        assert PageOk(s, i);
      }
    }
  }

  function SmallPageEntry(phys: nat): (e: uint64)
    requires phys < ADDR48
    ensures e == PageEntry(phys)
  {
    PageEntry(phys)
  }

  //////////////////////////////////////////////////////////////////////////////
  // The builder
  //////////////////////////////////////////////////////////////////////////////

  /** Tables below the top one. */
  function Count(s: Shape): nat { |s.middle| + |s.leaf| }

  class Vm {
    const palloc: Palloc
    var tables: Tables
    var root: nat
    ghost var shape: Shape

    ghost predicate Valid()
      reads this, palloc
    {
      palloc.next % 0x10 == 0 && palloc.end < ADDR48 && Built(tables, root, shape, palloc.next)
    }

    /** Room for n tables below the top one, those that exist included. */
    ghost predicate Budget(n: nat)
      reads this, palloc
    {
      RoundCeil(palloc.next, PAGE) + PAGE * (n - Count(shape)) <= palloc.end
    }

    /** vm_setup's first lines: an empty top table at the next page. */
    constructor (palloc: Palloc)
      requires palloc.next % 0x10 == 0 && 0 < palloc.next && RoundCeil(palloc.next, PAGE) + PAGE <= palloc.end < ADDR48
      modifies palloc
      ensures this.palloc == palloc && Valid() && shape.middle == map[] && shape.leaf == map[] && shape.pages == map[]
      ensures palloc.next == RoundCeil(old(palloc.next), PAGE) + PAGE
    {
      hide RoundCeil;
      this.palloc := palloc;
      tables := map[];
      root := 0;
      shape := Shape(map[], map[], map[], map[]);
      new;
      root := palloc.AllocPage();
      tables := map[root := ZERO];
      shape := Shape(map[], map[], map[], map[root := Top]);
      EmptyDirectory(map[], 0);
      PageAligned(palloc.next - PAGE);
    }

    /** A zeroed table in a page nobody else has. */
    method NewPtable() returns (res: nat)
      requires Valid() && RoundCeil(palloc.next, PAGE) + PAGE <= palloc.end
      modifies palloc, this`tables
      ensures res == RoundCeil(old(palloc.next), PAGE) && palloc.next == res + PAGE
      ensures tables == old(tables)[res := ZERO]
    {
      hide RoundCeil;
      res := palloc.AllocPage();
      tables := tables[res := ZERO];
    }

    /** A middle table for window h, entered at index i3 of the top table. */
    method AddMiddle(i3: nat, ghost h: nat) returns (pdesc: uint64)
      requires Valid() && h < 512 && i3 == h && h !in shape.middle
      requires RoundCeil(palloc.next, PAGE) + PAGE <= palloc.end
      modifies this`tables, this`shape, palloc
      ensures Valid() && RoundCeil(palloc.next, PAGE) == RoundCeil(old(palloc.next), PAGE) + PAGE
      ensures shape.leaf == old(shape.leaf) && shape.pages == old(shape.pages)
      ensures h in shape.middle && shape.middle == old(shape.middle)[h := shape.middle[h]]
      ensures Count(shape) == old(Count(shape)) + 1
      ensures pdesc == TableEntry(shape.middle[h])
    {
      hide RoundCeil, TableEntry, Built, Count;
      ghost var tables0, next0 := tables, palloc.next;
      TopTable(tables, root, shape, palloc.next);
      var nptbl := NewPtable();
      PageAligned(nptbl);
      pdesc := SmallEntry(nptbl);
      tables := tables[root := tables[root][i3 := pdesc]];
      MiddleStep(tables0, tables, root, shape, next0, h, nptbl);
      CountMiddle(shape, h, nptbl);
      shape := shape.(middle := shape.middle[h := nptbl], owner := shape.owner[nptbl := Middle(h)]);
    }

    /** A leaf table for window g, entered at index i2 of the middle table. */
    method AddLeaf(middle: nat, i2: nat, ghost g: nat) returns (pdesc: uint64)
      requires Valid() && g / 512 in shape.middle && middle == shape.middle[g / 512]
      requires i2 == g % 512 && g !in shape.leaf
      requires RoundCeil(palloc.next, PAGE) + PAGE <= palloc.end
      modifies this`tables, this`shape, palloc
      ensures Valid() && RoundCeil(palloc.next, PAGE) == RoundCeil(old(palloc.next), PAGE) + PAGE
      ensures shape.middle == old(shape.middle) && shape.pages == old(shape.pages)
      ensures g in shape.leaf && shape.leaf == old(shape.leaf)[g := shape.leaf[g]]
      ensures Count(shape) == old(Count(shape)) + 1
      ensures pdesc == TableEntry(shape.leaf[g])
    {
      hide RoundCeil, TableEntry, Built, Count;
      ghost var tables0, next0 := tables, palloc.next;
      MiddleTable(tables, root, shape, palloc.next, g / 512);
      var nptbl := NewPtable();
      PageAligned(nptbl);
      pdesc := SmallEntry(nptbl);
      tables := tables[middle := tables[middle][i2 := pdesc]];
      LeafStep(tables0, tables, root, shape, next0, g, nptbl);
      CountLeaf(shape, g, nptbl);
      shape := shape.(leaf := shape.leaf[g := nptbl], owner := shape.owner[nptbl := Leaf(g)]);
    }

    /** Level 3: the middle table for virt, made if missing. */
    method Level3(virt: nat, ghost n: nat) returns (table: nat)
      requires Valid() && Budget(n) && |shape.middle.Keys + {Frame(virt) / 512 / 512}| + |shape.leaf| <= n
      modifies this`tables, this`shape, palloc
      ensures Valid() && Budget(n)
      ensures shape.leaf == old(shape.leaf) && shape.pages == old(shape.pages)
      ensures shape.middle.Keys == old(shape.middle.Keys) + {Frame(virt) / 512 / 512}
      ensures table == shape.middle[Frame(virt) / 512 / 512]
    {
      hide TableAt, MiddleOk, LeafOk, PageOk, Directory, Bottom, Frame, Index3, TableEntry, TableAddr, RoundCeil, Built;
      ghost var h := Frame(virt) / 512 / 512;
      FrameTop(virt);
      TopTable(tables, root, shape, palloc.next);
      TopEntry(tables, root, shape, palloc.next, h);
      var desc := tables[root][Index3(virt)];
      if desc == 0 {
        OneMore(shape.middle, h);
        desc := AddMiddle(Index3(virt), h);
      } else {
        assert shape.middle.Keys + {h} == shape.middle.Keys;
      }
      MiddleTable(tables, root, shape, palloc.next, h);
      TableAddrOf(shape.middle[h]);
      table := TableAddr(desc);
    }

    /** Level 2: the leaf table for virt, made if missing. */
    method Level2(table3: nat, virt: nat, ghost n: nat) returns (table: nat)
      requires Valid() && Budget(n) && |shape.middle| + |shape.leaf.Keys + {Frame(virt) / 512}| <= n
      requires Frame(virt) / 512 / 512 in shape.middle && table3 == shape.middle[Frame(virt) / 512 / 512]
      modifies this`tables, this`shape, palloc
      ensures Valid() && Budget(n)
      ensures shape.middle == old(shape.middle) && shape.pages == old(shape.pages)
      ensures shape.leaf.Keys == old(shape.leaf.Keys) + {Frame(virt) / 512}
      ensures table == shape.leaf[Frame(virt) / 512]
    {
      hide Directory, Bottom, Frame, Index2, TableEntry, TableAddr, RoundCeil, Built;
      ghost var g := Frame(virt) / 512;
      FrameIndices(virt);
      MiddleTable(tables, root, shape, palloc.next, g / 512);
      MiddleEntry(tables, root, shape, palloc.next, g);
      var desc := tables[table3][Index2(virt)];
      if desc == 0 {
        OneMore(shape.leaf, g);
        desc := AddLeaf(table3, Index2(virt), g);
      }
      LeafTable(tables, root, shape, palloc.next, g);
      TableAddrOf(shape.leaf[g]);
      table := TableAddr(desc);
    }

    /** One 2 MiB page: virt's frame now leads to phyz and every other frame where it did.
        Addresses off a 2 MiB boundary are ignored. */
    method Map2mb(phyz: nat, virt: nat, ghost n: nat)
      requires Valid() && Budget(n) && phyz < ADDR48
      requires |shape.middle.Keys + {Frame(virt) / 512 / 512}| + |shape.leaf.Keys + {Frame(virt) / 512}| <= n
      modifies this`tables, this`shape, palloc
      ensures Valid() && Budget(n)
      ensures shape.pages == if Aligned(phyz) && Aligned(virt) then old(shape.pages)[Frame(virt) := phyz]
                             else old(shape.pages)
      ensures shape.middle.Keys <= old(shape.middle.Keys) + {Frame(virt) / 512 / 512}
      ensures shape.leaf.Keys <= old(shape.leaf.Keys) + {Frame(virt) / 512}
    {
      hide Frame, Index1, PageEntry, RoundCeil, Built;
      if phyz % MB2 != 0 || virt % MB2 != 0 {
        return;
      }
      MoreKeys(shape.middle, Frame(virt) / 512 / 512);
      MoreKeys(shape.leaf, Frame(virt) / 512);
      var pageTable := Level3(virt, n);
      assert |shape.middle| == |shape.middle.Keys|;
      pageTable := Level2(pageTable, virt, n);
      FrameIndices(virt);
      PageStep(tables, root, shape, palloc.next, Frame(virt), phyz);
      var pdesc: uint64 := SmallPageEntry(phyz);
      tables := tables[pageTable := tables[pageTable][Index1(virt) := pdesc]];
      shape := shape.(pages := shape.pages[Frame(virt) := phyz]);
    }

    /** Count 2 MiB pages from virt on, as the kernel loop of vm_setup and the body of
        map4kb_1gb do. */
    method MapPages(phyz: nat, virt: nat, count: nat, ghost n: nat, ghost ms: set<nat>, ghost ls: set<nat>)
      requires Valid() && Budget(n) && phyz + count * MB2 <= ADDR48
      requires forall i :: 0 <= i < count ==> FrameFollows(virt, i)
      requires Within(ms, ls, Frame(virt), count, n)
      requires shape.middle.Keys <= ms && shape.leaf.Keys <= ls
      modifies this`tables, this`shape, palloc
      ensures Valid() && Budget(n) && shape.middle.Keys <= ms && shape.leaf.Keys <= ls
      ensures shape.pages == if Aligned(phyz) && Aligned(virt)
                             then MapRun(old(shape.pages), Frame(virt), phyz, count) else old(shape.pages)
    {
      hide Frame, FrameFollows, Built, RoundCeil, Within, Count, MapRun, Aligned;
      ghost var pages0 := shape.pages;
      MapRunNone(pages0, Frame(virt), phyz);
      ghost var good := Aligned(phyz) && Aligned(virt);
      for i := 0 to count
        invariant Valid() && Budget(n) && shape.middle.Keys <= ms && shape.leaf.Keys <= ls
        invariant shape.pages == if good then MapRun(pages0, Frame(virt), phyz, i) else pages0
      {
        var p, v := phyz + i * MB2, virt + i * MB2;
        ghost var f := Frame(v);
        Follows(virt, i, v);
        StepAligned(phyz, i, p);
        StepAligned(virt, i, v);
        RoomFor(shape, ms, ls, Frame(virt), count, f, n);
        PageInRange(phyz, i, count, p);
        ghost var was := shape.pages;
        Map2mb(p, v, n);
        MapRunNext(good, pages0, Frame(virt), phyz, i, was, f, p, shape.pages);
      }
    }

    /** One GiB as 512 pages; addresses off a GiB boundary are ignored. */
    method Map1gb(phyz: nat, virt: nat, ghost n: nat, ghost ms: set<nat>, ghost ls: set<nat>)
      requires Valid() && Budget(n) && phyz + GB1 <= ADDR48
      requires forall i :: 0 <= i < 512 ==> FrameFollows(virt, i)
      requires Within(ms, ls, Frame(virt), 512, n)
      requires shape.middle.Keys <= ms && shape.leaf.Keys <= ls
      modifies this`tables, this`shape, palloc
      ensures Valid() && Budget(n) && shape.middle.Keys <= ms && shape.leaf.Keys <= ls
      ensures shape.pages == if phyz % GB1 == 0 && virt % GB1 == 0
                             then MapRun(old(shape.pages), Frame(virt), phyz, 512) else old(shape.pages)
    {
      hide Frame, Built, RoundCeil, MapRun;
      if phyz % GB1 != 0 || virt % GB1 != 0 {
        return;
      }
      GigabyteAligned(phyz);
      GigabyteAligned(virt);
      MapPages(phyz, virt, 512, n, ms, ls);
    }

    /** The kernel part and the RAM part of vm_setup. */
    method MapAll(paddr: nat, vaddr: nat, kernelCount: nat, ramBase: nat, ramCount: nat,
                  ghost n: nat, ghost ms: set<nat>, ghost ls: set<nat>)
      requires Valid() && Budget(n) && shape.middle == map[] && shape.leaf == map[] && shape.pages == map[]
      requires HighHalf(vaddr, kernelCount) && paddr + kernelCount * MB2 <= ADDR48
      requires ramBase % GB1 == 0 && ramBase + ramCount * GB1 <= LOW_HALF
      requires Within(ms, ls, Frame(vaddr), kernelCount, n) && Within(ms, ls, ramBase / MB2, 512 * ramCount, n)
      modifies this`tables, this`shape, palloc
      ensures Valid()
      ensures shape.pages ==
              MapRun(if Aligned(paddr) && Aligned(vaddr) then MapRun(map[], Frame(vaddr), paddr, kernelCount) else map[],
                     ramBase / MB2, ramBase, 512 * ramCount)
    {
      hide Frame, Built, RoundCeil, Within, Count, MapRun;
      HighFrames(vaddr, kernelCount);
      MapPages(paddr, vaddr, kernelCount, n, ms, ls);
      ghost var kernel := shape.pages;
      MapRunNone(kernel, ramBase / MB2, ramBase);
      for i := 0 to ramCount
        invariant Valid() && Budget(n) && shape.middle.Keys <= ms && shape.leaf.Keys <= ls
        invariant shape.pages == MapRun(kernel, ramBase / MB2, ramBase, 512 * i)
      {
        var at := ramBase + i * GB1;
        LowFrames(at, ramBase, i);
        WithinPart(ms, ls, ramBase / MB2, 512 * ramCount, n, 512 * i, 512);
        Map1gb(at, at, n, ms, ls);
        MapRunJoin(kernel, ramBase / MB2, ramBase, 512 * i, 512);
      }
    }
  }

  const KERNEL_BASE: nat := 0xffff_8000_0000_0000
  const LOW_HALF: nat := 0x8000_0000_0000

  /** Count pages from vaddr on lie in the canonical high half. */
  predicate HighHalf(vaddr: nat, count: nat) {
    KERNEL_BASE <= vaddr && vaddr + count * MB2 <= 0x1_0000_0000_0000_0000
  }

  /** There, frames count up from the first one, all in the upper half of the frames. */
  lemma HighFrame(v: nat)
    requires KERNEL_BASE <= v < 0x1_0000_0000_0000_0000
    ensures Frame(v) == (v - (KERNEL_BASE - LOW_HALF)) / MB2 >= FRAMES / 2
  {
    var k := (KERNEL_BASE - LOW_HALF) / MB2;
    var u := v - (KERNEL_BASE - LOW_HALF);
    DivUnique(v, MB2, k + u / MB2, u % MB2);
    DivUnique(k + u / MB2, FRAMES, 0xffff, u / MB2);
  }

  lemma HighFrames(vaddr: nat, count: nat)
    requires HighHalf(vaddr, count)
    ensures forall i :: 0 <= i < count ==> FrameFollows(vaddr, i)
  {
    forall i | 0 <= i < count
      ensures FrameFollows(vaddr, i)
    {
      HighFrame(vaddr);
      HighFrame(vaddr + i * MB2);
      var u := vaddr - (KERNEL_BASE - LOW_HALF);
      DivUnique(u + i * MB2, MB2, u / MB2 + i, u % MB2);
    }
  }

  lemma LowFrame(v: nat)
    requires v < LOW_HALF
    ensures Frame(v) == v / MB2 < FRAMES / 2
  {
    DivUnique(v / MB2, FRAMES, 0, v / MB2);
  }

  lemma LowFrames(at: nat, ramBase: nat, i: nat)
    requires ramBase % GB1 == 0 && at == ramBase + i * GB1 && at + GB1 <= LOW_HALF
    ensures at % GB1 == 0 && Frame(at) == ramBase / MB2 + 512 * i
    ensures at == ramBase + 512 * i * MB2
    ensures forall k :: 0 <= k < 512 ==> FrameFollows(at, k)
  {
    ModOfMultiple(ramBase, i, GB1);
    DivUnique(at, MB2, ramBase / MB2 + 512 * i, ramBase % MB2);
    forall k | 0 <= k < 512
      ensures FrameFollows(at, k)
    {
      LowFrame(at);
      LowFrame(at + k * MB2);
      DivUnique(at + k * MB2, MB2, at / MB2 + k, at % MB2);
    }
    LowFrame(at);
  }

  lemma WithinPart(ms: set<nat>, ls: set<nat>, f0: nat, count: nat, n: nat, from: nat, part: nat)
    requires Within(ms, ls, f0, count, n) && from + part <= count
    ensures Within(ms, ls, f0 + from, part, n)
  {
  }

  lemma MapRunNone(pages: map<nat, nat>, f0: nat, phys: nat)
    ensures MapRun(pages, f0, phys, 0) == pages
  {
  }

  lemma MapRunNext(good: bool, pages: map<nat, nat>, f0: nat, phys: nat, i: nat,
                   was: map<nat, nat>, f: nat, p: nat, now: map<nat, nat>)
    requires was == if good then MapRun(pages, f0, phys, i) else pages
    requires now == if good then was[f := p] else was
    requires f == f0 + i && p == phys + i * MB2
    ensures now == if good then MapRun(pages, f0, phys, i + 1) else pages
  {
  }

  /** On a 2 MiB boundary. */
  predicate Aligned(a: nat) {
    a % MB2 == 0
  }

  predicate FrameFollows(virt: nat, i: nat) {
    Frame(virt + i * MB2) == Frame(virt) + i
  }

  lemma Follows(virt: nat, i: nat, v: nat)
    requires FrameFollows(virt, i) && v == virt + i * MB2
    ensures Frame(v) == Frame(virt) + i
  {
  }

  /** The windows of a run lie in ms and ls, for which n tables suffice. */
  ghost predicate Within(ms: set<nat>, ls: set<nat>, f0: nat, count: nat, n: nat) {
    Middles(f0, count) <= ms && Leaves(f0, count) <= ls && |ms| + |ls| <= n
  }

  lemma RoomFor(s: Shape, ms: set<nat>, ls: set<nat>, f0: nat, count: nat, f: nat, n: nat)
    requires Within(ms, ls, f0, count, n) && f0 <= f < f0 + count
    requires s.middle.Keys <= ms && s.leaf.Keys <= ls
    ensures |s.middle.Keys + {f / 512 / 512}| + |s.leaf.Keys + {f / 512}| <= n
    ensures f / 512 / 512 in ms && f / 512 in ls
  {
    assert f / 512 / 512 in Middles(f0, count) && f / 512 in Leaves(f0, count);
    SubsetSize(s.middle.Keys + {f / 512 / 512}, ms);
    SubsetSize(s.leaf.Keys + {f / 512}, ls);
  }

  lemma {:induction false} SubsetSize<T>(a: set<T>, b: set<T>)
    requires a <= b
    ensures |a| <= |b|
  {
    if x :| x in a {
      SubsetSize(a - {x}, b - {x});
    }
  }

  lemma StepAligned(a: nat, i: nat, b: nat)
    requires b == a + i * MB2
    ensures Aligned(b) <==> Aligned(a)
  {
    ModOfMultiple(a, i, MB2);
  }

  lemma PageInRange(a: nat, i: nat, count: nat, b: nat)
    requires a + count * MB2 <= ADDR48 && i < count && b == a + i * MB2
    ensures b < ADDR48
  {
  }

  lemma GigabyteAligned(a: nat)
    requires a % GB1 == 0
    ensures Aligned(a)
  {
    DivUnique(a, MB2, 512 * (a / GB1), 0);
  }

  //////////////////////////////////////////////////////////////////////////////
  // Runs of frames
  //////////////////////////////////////////////////////////////////////////////

  /** pages with frames f0 to f0 + count - 1 mapped to consecutive 2 MiB pages. */
  ghost function MapRun(pages: map<nat, nat>, f0: nat, phys: nat, count: nat): map<nat, nat> {
    if count == 0 then pages
    else MapRun(pages, f0, phys, count - 1)[f0 + (count - 1) := phys + (count - 1) * MB2]
  }

  lemma {:induction false} MapRunAt(pages: map<nat, nat>, f0: nat, phys: nat, count: nat, f: nat)
    ensures var m := MapRun(pages, f0, phys, count);
            if f0 <= f < f0 + count then f in m && m[f] == phys + (f - f0) * MB2
            else (f in m <==> f in pages) && (f in m ==> m[f] == pages[f])
  {
    if count > 0 {
      MapRunAt(pages, f0, phys, count - 1, f);
    }
  }

  lemma {:induction false} MapRunJoin(pages: map<nat, nat>, f0: nat, phys: nat, a: nat, b: nat)
    ensures MapRun(MapRun(pages, f0, phys, a), f0 + a, phys + a * MB2, b) == MapRun(pages, f0, phys, a + b)
  {
    if b > 0 {
      MapRunJoin(pages, f0, phys, a, b - 1);
    }
  }

  /** The 512 GiB and 1 GiB windows a run of frames touches. */
  function Middles(f0: nat, count: nat): set<nat> {
    set f | f0 <= f < f0 + count :: f / 512 / 512
  }

  function Leaves(f0: nat, count: nat): set<nat> {
    set f | f0 <= f < f0 + count :: f / 512
  }

  lemma FrameTop(v: nat)
    ensures Index3(v) == Frame(v) / 512 / 512 < 512
  {
    FrameIndices(v);
  }

  // What Built says of single tables and entries.

  lemma TopTable(tables: Tables, root: nat, s: Shape, next: nat)
    requires Built(tables, root, s, next)
    ensures root in tables && root < next
  {
  }

  lemma TopEntry(tables: Tables, root: nat, s: Shape, next: nat, h: nat)
    requires Built(tables, root, s, next) && h < 512
    ensures root in tables && tables[root][h] == if h in s.middle then TableEntry(s.middle[h]) else 0
    ensures tables[root][h] == 0 <==> h !in s.middle
  {
    DirectoryAt(s.middle, h);
    HighWindow(h);
  }

  lemma MiddleTable(tables: Tables, root: nat, s: Shape, next: nat, h: nat)
    requires Built(tables, root, s, next) && h in s.middle
    ensures var m := s.middle[h]; m in tables && m % PAGE == 0 && m < ADDR48 && m < next
  {
    assert MiddleOk(tables, s, next, h);
  }

  lemma MiddleEntry(tables: Tables, root: nat, s: Shape, next: nat, g: nat)
    requires Built(tables, root, s, next) && g / 512 in s.middle
    ensures var m := s.middle[g / 512];
            && m in tables
            && tables[m][g % 512] == (if g in s.leaf then TableEntry(s.leaf[g]) else 0)
            && (tables[m][g % 512] == 0 <==> g !in s.leaf)
  {
    assert MiddleOk(tables, s, next, g / 512);
    DirectoryAt(s.leaf, g);
  }

  lemma LeafTable(tables: Tables, root: nat, s: Shape, next: nat, g: nat)
    requires Built(tables, root, s, next) && g in s.leaf
    ensures s.leaf[g] in tables && s.leaf[g] % PAGE == 0 && s.leaf[g] < ADDR48
  {
    assert LeafOk(tables, s, next, g);
  }

  lemma CountLeaf(s: Shape, g: nat, addr: nat)
    requires g !in s.leaf
    ensures Count(s.(leaf := s.leaf[g := addr], owner := s.owner[addr := Leaf(g)])) == Count(s) + 1
  {
    OneMoreEntry(s.leaf, g, addr);
  }

  lemma CountMiddle(s: Shape, h: nat, addr: nat)
    requires h !in s.middle
    ensures Count(s.(middle := s.middle[h := addr], owner := s.owner[addr := Middle(h)])) == Count(s) + 1
  {
    OneMoreEntry(s.middle, h, addr);
  }

  lemma OneMore<K, V>(m: map<K, V>, k: K)
    requires k !in m
    ensures |m.Keys + {k}| == |m| + 1
  {
    assert |m.Keys| == |m|;
  }

  lemma OneMoreEntry<K, V>(m: map<K, V>, k: K, v: V)
    requires k !in m
    ensures |m[k := v]| == |m| + 1 && m[k := v].Keys == m.Keys + {k}
  {
    assert m[k := v].Keys == m.Keys + {k};
    assert |m[k := v]| == |m[k := v].Keys|;
    OneMore(m, k);
  }

  lemma MoreKeys<K, V>(m: map<K, V>, k: K)
    ensures |m| <= |m.Keys + {k}|
  {
    if k in m {
      assert m.Keys + {k} == m.Keys;
      assert |m.Keys| == |m|;
    } else {
      OneMore(m, k);
    }
  }

  lemma PageAligned(next: nat)
    requires next % PAGE == 0
    ensures RoundCeil(next + PAGE, PAGE) == next + PAGE && (next + PAGE) % 0x10 == 0
  {
    hide RoundCeil;
    var a := next / PAGE;
    DivUnique(next + PAGE, PAGE, a + 1, 0);
    DivUnique(next + PAGE, 0x10, 0x100 * (a + 1), 0);
    RoundCeilUnique(next + PAGE, PAGE, next + PAGE);
  }

  //////////////////////////////////////////////////////////////////////////////
  // vm_setup
  //////////////////////////////////////////////////////////////////////////////

  const SHADOW_AREA_SIZE: nat := 0x40_0000

  /** Number of whole pieces of a size that cover len bytes. */
  function Pieces(len: nat, size: nat): nat
    requires size > 0
  {
    (len + (size - 1)) / size
  }

  /** They are enough, and one less would not be. */
  lemma PiecesFit(len: nat, size: nat)
    requires size > 0
    ensures len <= Pieces(len, size) * size < len + size
  {
    var n := len + (size - 1);
    assert n == n / size * size + n % size;
  }

  /** An address lies in one of the pieces exactly when its piece begins within len. */
  lemma InPieces(x: nat, len: nat, size: nat)
    requires size > 0
    ensures x < Pieces(len, size) * size <==> x / size * size < len
  {
    hide Pieces;
    PiecesFit(len, size);
    var q, n := x / size, Pieces(len, size);
    assert x == q * size + x % size;
    if q < n {
      MulMonotone(q + 1, n, size);
    } else {
      MulMonotone(n, q, size);
    }
  }

  function RamFloor(ramBase: nat): nat {
    ramBase / GB1 * GB1
  }

  predicate Canonical(v: nat) {
    v < LOW_HALF || KERNEL_BASE <= v < 0x1_0000_0000_0000_0000
  }

  /** The address map vm_setup is meant to build: the kernel window to its load address,
      RAM to itself, nothing else. */
  function Intended(paddr: nat, vaddr: nat, kernelCount: nat, ramBase: nat, ramCount: nat, v: nat): Option<nat> {
    if vaddr <= v < vaddr + kernelCount * MB2 then Some(v - vaddr + paddr)
    else if ramBase <= v < ramBase + ramCount * GB1 then Some(v)
    else None
  }

  ghost function AllMiddles(vaddr: nat, kernelCount: nat, ramBase: nat, ramCount: nat): set<nat> {
    Middles(Frame(vaddr), kernelCount) + Middles(ramBase / MB2, 512 * ramCount)
  }

  ghost function AllLeaves(vaddr: nat, kernelCount: nat, ramBase: nat, ramCount: nat): set<nat> {
    Leaves(Frame(vaddr), kernelCount) + Leaves(ramBase / MB2, 512 * ramCount)
  }

  /** Tables the whole map needs: the top one, and one for each window it touches. */
  ghost function TablesNeeded(vaddr: nat, kernelCount: nat, ramBase: nat, ramCount: nat): nat {
    1 + |AllMiddles(vaddr, kernelCount, ramBase, ramCount)| + |AllLeaves(vaddr, kernelCount, ramBase, ramCount)|
  }

  /** Frames and addresses of the low half. */
  lemma LowRange(v: nat, base: nat, count: nat)
    requires v < LOW_HALF && base % GB1 == 0
    ensures base / MB2 <= Frame(v) < base / MB2 + 512 * count <==> base <= v < base + count * GB1
    ensures base + (Frame(v) - base / MB2) * MB2 + v % MB2 == v
  {
    LowFrame(v);
    GigabyteAligned(base);
  }

  /** Frames and addresses of the high half. */
  lemma HighRange(v: nat, vaddr: nat, count: nat)
    requires KERNEL_BASE <= v < 0x1_0000_0000_0000_0000 && KERNEL_BASE <= vaddr < 0x1_0000_0000_0000_0000
    requires Aligned(vaddr)
    ensures Frame(vaddr) <= Frame(v) < Frame(vaddr) + count <==> vaddr <= v < vaddr + count * MB2
    ensures (Frame(v) - Frame(vaddr)) * MB2 + v % MB2 == v - vaddr
  {
    HighFrame(v);
    HighFrame(vaddr);
    var c := KERNEL_BASE - LOW_HALF;
    var a, b := (v - c) / MB2, (vaddr - c) / MB2;
    ModOfMultiple(v - c, c / MB2, MB2);
    ModOfMultiple(vaddr - c, c / MB2, MB2);
    assert vaddr - c == b * MB2;
    assert v - c == a * MB2 + v % MB2;
  }

  /** With aligned kernel addresses the pages of MapAll are the intended map. */
  lemma PagesAreIntended(paddr: nat, vaddr: nat, kernelCount: nat, ramBase: nat, ramCount: nat, v: nat)
    requires HighHalf(vaddr, kernelCount) && kernelCount > 0 && Aligned(vaddr)
    requires ramBase % GB1 == 0 && ramBase + ramCount * GB1 <= LOW_HALF && Canonical(v)
    ensures var pages := MapRun(MapRun(map[], Frame(vaddr), paddr, kernelCount), ramBase / MB2, ramBase, 512 * ramCount);
            (if Frame(v) in pages then Some(pages[Frame(v)] + v % MB2) else None)
            == Intended(paddr, vaddr, kernelCount, ramBase, ramCount, v)
  {
    hide Frame, MapRun;
    var kernel := MapRun(map[], Frame(vaddr), paddr, kernelCount);
    MapRunAt(map[], Frame(vaddr), paddr, kernelCount, Frame(v));
    MapRunAt(kernel, ramBase / MB2, ramBase, 512 * ramCount, Frame(v));
    HighFrame(vaddr);
    if v < LOW_HALF {
      LowFrame(v);
      LowRange(v, ramBase, ramCount);
    } else {
      HighFrame(v);
      HighRange(v, vaddr, kernelCount);
      RamFramesLow(ramBase, ramCount);
    }
  }

  lemma RamFramesLow(ramBase: nat, ramCount: nat)
    requires ramBase % GB1 == 0 && ramBase + ramCount * GB1 <= LOW_HALF
    ensures ramBase / MB2 + 512 * ramCount <= FRAMES / 2
  {
    var g := ramBase / GB1;
    DivUnique(ramBase, MB2, 512 * g, 0);
  }

  /** Without kernel pages the pages of MapAll are RAM and nothing else. */
  lemma RamAlone(paddr: nat, vaddr: nat, ramBase: nat, ramCount: nat, v: nat)
    requires ramBase % GB1 == 0 && ramBase + ramCount * GB1 <= LOW_HALF && Canonical(v)
    ensures var pages := MapRun(map[], ramBase / MB2, ramBase, 512 * ramCount);
            (if Frame(v) in pages then Some(pages[Frame(v)] + v % MB2) else None)
            == Intended(paddr, vaddr, 0, ramBase, ramCount, v)
  {
    hide Frame, MapRun;
    MapRunAt(map[], ramBase / MB2, ramBase, 512 * ramCount, Frame(v));
    if v < LOW_HALF {
      LowFrame(v);
      LowRange(v, ramBase, ramCount);
    } else {
      HighFrame(v);
      RamFramesLow(ramBase, ramCount);
    }
  }

  /** All of RAM leads to itself in the intended map exactly when rounding the base down to
      1 GiB does not cost more than rounding the size up gains. */
  lemma RamCoveredIff(paddr: nat, vaddr: nat, kernelCount: nat, ramBase: nat, ramSize: nat)
    requires vaddr >= KERNEL_BASE && ramBase + ramSize <= LOW_HALF
    ensures (forall v | ramBase <= v < ramBase + ramSize ::
               Intended(paddr, vaddr, kernelCount, RamFloor(ramBase), Pieces(ramSize, GB1), v) == Some(v))
            <==> ramSize == 0 || ramBase % GB1 <= Pieces(ramSize, GB1) * GB1 - ramSize
  {
    var end := RamFloor(ramBase) + Pieces(ramSize, GB1) * GB1;
    assert ramBase == RamFloor(ramBase) + ramBase % GB1;
    assert ramSize > 0 ==> Pieces(ramSize, GB1) > 0;
    if ramSize > 0 && end < ramBase + ramSize {
      assert ramBase <= end;
      assert Intended(paddr, vaddr, kernelCount, RamFloor(ramBase), Pieces(ramSize, GB1), end) == None;
    }
  }

  lemma AllWithin(vaddr: nat, kernelCount: nat, ramBase: nat, ramCount: nat, ms: set<nat>, ls: set<nat>, n: nat)
    requires ms == AllMiddles(vaddr, kernelCount, ramBase, ramCount)
    requires ls == AllLeaves(vaddr, kernelCount, ramBase, ramCount)
    requires n == |ms| + |ls|
    ensures Within(ms, ls, Frame(vaddr), kernelCount, n) && Within(ms, ls, ramBase / MB2, 512 * ramCount, n)
  {
  }

  /** In the intended map an address below leads to itself exactly if its GiB begins within
      RAM, counted from where its first GiB begins. */
  lemma IntendedLow(paddr: nat, vaddr: nat, kernelCount: nat, base: nat, ramSize: nat, v: nat)
    requires base % GB1 == 0 && v < LOW_HALF && vaddr >= KERNEL_BASE
    ensures Intended(paddr, vaddr, kernelCount, base, Pieces(ramSize, GB1), v)
            == if base <= v && v / GB1 * GB1 < base + ramSize then Some(v) else None
  {
    hide Pieces;
    if base <= v {
      InPieces(v - base, ramSize, GB1);
      assert (v - base) / GB1 * GB1 == v / GB1 * GB1 - base;
    }
  }

  /** An address above leads to its place in the kernel exactly if its 2 MiB begin within
      what is to be mapped. */
  lemma IntendedHigh(paddr: nat, vaddr: nat, size: nat, base: nat, ramCount: nat, v: nat)
    requires base + ramCount * GB1 <= LOW_HALF && v >= KERNEL_BASE
    ensures Intended(paddr, vaddr, Pieces(size, MB2), base, ramCount, v)
            == if vaddr <= v && (v - vaddr) / MB2 * MB2 < size then Some(v - vaddr + paddr) else None
  {
    hide Pieces;
    if vaddr <= v {
      InPieces(v - vaddr, size, MB2);
    }
  }

  /** After set-up every canonical address translates as intended: below, an address leads
      to itself exactly if its GiB begins within RAM; above, with kernel addresses on 2 MiB
      boundaries, an address leads to its place in the kernel exactly if its 2 MiB begin
      within the kernel and its shadow area, and else nothing does. All of RAM leads to
      itself exactly when its base and size allow it. */
  method VmSetup(palloc: Palloc, paddr: nat, vaddr: nat, ramBase: nat, ramSize: nat) returns (vm: Vm)
    requires palloc.next % 0x10 == 0 && 0 < palloc.next && palloc.start <= palloc.end < ADDR48
    requires var kernelCount := Pieces(palloc.end - palloc.start + SHADOW_AREA_SIZE, MB2);
             var ramCount := Pieces(ramSize, GB1);
             && HighHalf(vaddr, kernelCount) && paddr + kernelCount * MB2 <= ADDR48
             && RamFloor(ramBase) + ramCount * GB1 <= LOW_HALF
             && RoundCeil(palloc.next, PAGE) + PAGE * TablesNeeded(vaddr, kernelCount, RamFloor(ramBase), ramCount)
                <= palloc.end
    modifies palloc
    ensures var kernelCount := Pieces(palloc.end - palloc.start + SHADOW_AREA_SIZE, MB2);
            var mapped := if Aligned(paddr) && Aligned(vaddr) then kernelCount else 0;
            forall v :: Canonical(v) ==>
              Translate(vm.tables, vm.root, v) ==
              Intended(paddr, vaddr, mapped, RamFloor(ramBase), Pieces(ramSize, GB1), v)
    ensures forall v: nat :: v < LOW_HALF ==>
              Translate(vm.tables, vm.root, v)
              == if RamFloor(ramBase) <= v && v / GB1 * GB1 < RamFloor(ramBase) + ramSize then Some(v) else None
    ensures Aligned(paddr) && Aligned(vaddr) ==>
              forall v :: KERNEL_BASE <= v < 0x1_0000_0000_0000_0000 ==>
                Translate(vm.tables, vm.root, v)
                == if vaddr <= v && (v - vaddr) / MB2 * MB2 < palloc.end - palloc.start + SHADOW_AREA_SIZE
                   then Some(v - vaddr + paddr) else None
    ensures !(Aligned(paddr) && Aligned(vaddr)) ==>
              forall v :: KERNEL_BASE <= v < 0x1_0000_0000_0000_0000 ==> Translate(vm.tables, vm.root, v) == None
    ensures ramBase + ramSize <= LOW_HALF ==>
              ((forall v | ramBase <= v < ramBase + ramSize :: Translate(vm.tables, vm.root, v) == Some(v))
               <==> ramSize == 0 || ramBase % GB1 <= Pieces(ramSize, GB1) * GB1 - ramSize)
  {
    hide RoundCeil, Frame, Built, Within, Count, MapRun, AllMiddles, AllLeaves, Translate, Intended, Aligned;
    var kernelSize := palloc.end - palloc.start + SHADOW_AREA_SIZE;
    var kernelCount := Pieces(kernelSize, MB2);
    var base := RamFloor(ramBase);
    var ramCount := Pieces(ramSize, GB1);
    SomePieces(kernelSize);
    FloorIsWhole(ramBase);
    ghost var ms := AllMiddles(vaddr, kernelCount, base, ramCount);
    ghost var ls := AllLeaves(vaddr, kernelCount, base, ramCount);
    ghost var n := |ms| + |ls|;
    AllWithin(vaddr, kernelCount, base, ramCount, ms, ls, n);
    vm := new Vm(palloc);
    BudgetAtStart(vm, n);
    vm.MapAll(paddr, vaddr, kernelCount, base, ramCount, n, ms, ls);
    ghost var mapped := if Aligned(paddr) && Aligned(vaddr) then kernelCount else 0;
    forall v | Canonical(v)
      ensures Translate(vm.tables, vm.root, v) == Intended(paddr, vaddr, mapped, base, ramCount, v)
    {
      WalkAgrees(vm.tables, vm.root, vm.shape, palloc.next, v);
      if Aligned(paddr) && Aligned(vaddr) {
        PagesAreIntended(paddr, vaddr, kernelCount, base, ramCount, v);
      } else {
        RamAlone(paddr, vaddr, base, ramCount, v);
      }
    }
    forall v: nat | v < LOW_HALF
      ensures Translate(vm.tables, vm.root, v)
              == if base <= v && v / GB1 * GB1 < base + ramSize then Some(v) else None
    {
      IntendedLow(paddr, vaddr, mapped, base, ramSize, v);
    }
    forall v | Aligned(paddr) && Aligned(vaddr) && KERNEL_BASE <= v < 0x1_0000_0000_0000_0000
      ensures Translate(vm.tables, vm.root, v)
              == if vaddr <= v && (v - vaddr) / MB2 * MB2 < kernelSize then Some(v - vaddr + paddr) else None
    {
      IntendedHigh(paddr, vaddr, kernelSize, base, ramCount, v);
    }
    NoKernel(paddr, vaddr, base, ramCount);
    if ramBase + ramSize <= LOW_HALF {
      RamCoveredIff(paddr, vaddr, mapped, ramBase, ramSize);
    }
  }

  /** With no kernel page the intended map has nothing in the high half. */
  lemma NoKernel(paddr: nat, vaddr: nat, ramBase: nat, ramCount: nat)
    requires ramBase + ramCount * GB1 <= LOW_HALF
    ensures forall v :: KERNEL_BASE <= v < 0x1_0000_0000_0000_0000 ==> Intended(paddr, vaddr, 0, ramBase, ramCount, v) == None
  {
  }

  lemma SomePieces(len: nat)
    requires len > 0
    ensures Pieces(len, MB2) > 0
  {
  }

  lemma FloorIsWhole(ramBase: nat)
    ensures RamFloor(ramBase) % GB1 == 0
  {
    DivUnique(ramBase / GB1 * GB1, GB1, ramBase / GB1, 0);
  }

  lemma BudgetAtStart(vm: Vm, n: nat)
    requires RoundCeil(vm.palloc.next, PAGE) + PAGE * n <= vm.palloc.end
    requires vm.shape.middle == map[] && vm.shape.leaf == map[]
    ensures vm.Budget(n)
  {
  }
}
