/** The page level of src/kernel/memory.c: virtual-address bitmaps, page tables and the two
    physical pools. Addresses are page numbers (address / 4096). */
module Pages {
  import opened Machine
  import opened Bitmap

  /** An address space; KERNEL is the one every page directory shares. */
  type Sid = nat
  const KERNEL: Sid := 0

  const PTES_PER_TABLE := 1024
  const MAX_MALLOC_PAGES := 3840
  const LOW_FRAMES := 0x102
  const STACK_PAGE := 0xbffff

  /** Sizes fixed by mem_pool_init: the pools are adjacent, the kernel's first, and so are
      their bitmaps. `kernelBase` is the first frame of the kernel pool; a bitmap is
      pages / 8 whole bytes. */
  datatype Layout = Layout(kernelBase: nat, kernelPages: nat, kernelBytes: nat, userBytes: nat, vbase: map<Sid, nat>)

  /** The pools start above the first 2 MB, which hold the kernel and its page tables. */
  predicate LayoutOk(c: Layout) {
    c.kernelBytes == c.kernelPages / 8 && c.kernelBase > LOW_FRAMES
  }

  function KernelBits(c: Layout): nat {
    8 * c.kernelBytes
  }

  function UserBits(c: Layout): nat {
    8 * c.userBytes
  }

  function UserBase(c: Layout): nat {
    c.kernelBase + c.kernelPages
  }

  /** `phys` is the two pool bitmaps as they lie in memory. `pte` holds the present page-table
      entries and `tables` the page tables that page_table_add took from the kernel pool;
      the page tables of the kernel part exist from the start. */
  datatype Mem = Mem(phys: seq<bool>, vbits: map<Sid, seq<bool>>, pte: map<(Sid, nat), nat>, tables: map<(Sid, nat), nat>)

  /** The bit of `phys` that stands for a frame. */
  function BitFor(c: Layout, f: int): int {
    if f < UserBase(c) then f - c.kernelBase else KernelBits(c) + (f - UserBase(c))
  }

  predicate IsFrame(c: Layout, f: nat) {
    c.kernelBase <= f < c.kernelBase + KernelBits(c) || UserBase(c) <= f < UserBase(c) + UserBits(c)
  }

  lemma BitForIsInjective(c: Layout, f: nat, g: nat)
    requires LayoutOk(c) && IsFrame(c, f) && IsFrame(c, g) && BitFor(c, f) == BitFor(c, g)
    ensures f == g
  {
  }

  // ----- the three structures agree -----

  ghost predicate SizesOk(c: Layout, m: Mem) {
    |m.phys| == KernelBits(c) + UserBits(c) && KernelBits(c) <= c.kernelPages && m.vbits.Keys == c.vbase.Keys && KERNEL in c.vbase
  }

  /** A frame in use is a frame of a pool and its bit is set. */
  predicate InUse(c: Layout, phys: seq<bool>, f: nat) {
    IsFrame(c, f) && 0 <= BitFor(c, f) < |phys| && phys[BitFor(c, f)]
  }

  ghost predicate FramesOk(c: Layout, m: Mem) {
    (forall k :: k in m.pte ==> InUse(c, m.phys, m.pte[k])) && (forall k :: k in m.tables ==> InUse(c, m.phys, m.tables[k]))
  }

  /** The uses `k` and `l`, as pages or as page tables, are of different frames. */
  ghost predicate Apart(m: Mem, k: (Sid, nat), l: (Sid, nat)) {
    (k in m.pte && l in m.pte && m.pte[k] == m.pte[l] ==> k == l) &&
    (k in m.tables && l in m.tables && m.tables[k] == m.tables[l] ==> k == l) &&
    (k in m.pte && l in m.tables ==> m.pte[k] != m.tables[l])
  }

  /** No frame has two uses. */
  ghost predicate FramesDistinct(m: Mem) {
    forall k, l :: Apart(m, k, l)
  }

  predicate PdePresent(m: Mem, sid: Sid, v: nat) {
    sid == KERNEL || (sid, v / PTES_PER_TABLE) in m.tables
  }

  ghost predicate TablesOk(m: Mem) {
    forall k :: k in m.pte ==> PdePresent(m, k.0, k.1)
  }

  /** Kernel pages lie in the kernel pool, all others in the user pool. */
  ghost predicate PoolsOk(c: Layout, m: Mem) {
    forall k :: k in m.pte ==> (m.pte[k] < UserBase(c) <==> k.0 == KERNEL)
  }

  ghost predicate Core(c: Layout, m: Mem) {
    SizesOk(c, m) && FramesOk(c, m) && FramesDistinct(m) && TablesOk(m) && PoolsOk(c, m)
  }

  /** The page at position `i` of a space's virtual pool is allocated. */
  predicate VBit(c: Layout, m: Mem, k: (Sid, nat)) {
    k.0 in c.vbase && k.0 in m.vbits && c.vbase[k.0] <= k.1 < c.vbase[k.0] + |m.vbits[k.0]| && m.vbits[k.0][k.1 - c.vbase[k.0]]
  }

  /** Allocated in the virtual bitmap if and only if mapped in the page table. */
  ghost predicate VirtualAgrees(c: Layout, m: Mem) {
    forall k :: VBit(c, m, k) <==> k in m.pte
  }

  /** Some entry of a page table or page directory lies on the frame of bit `b`. */
  ghost predicate On(c: Layout, entries: map<(Sid, nat), nat>, b: int) {
    exists k :: k in entries && BitFor(c, entries[k]) == b
  }

  /** Every marked frame is in use as a page or a page table, except those of `but`. */
  ghost predicate NoLeakBut(c: Layout, m: Mem, but: set<int>) {
    forall b :: 0 <= b < |m.phys| && m.phys[b] && b !in but ==> On(c, m.pte, b) || On(c, m.tables, b)
  }

  ghost predicate NoLeak(c: Layout, m: Mem) {
    NoLeakBut(c, m, {})
  }

  /** Page tables and physical bitmap agree: marked if and only if in use, and once. */
  ghost predicate Sound(c: Layout, m: Mem) {
    Core(c, m) && NoLeak(c, m)
  }

  /** And so does the virtual bitmap. */
  ghost predicate Agree(c: Layout, m: Mem) {
    Sound(c, m) && VirtualAgrees(c, m)
  }

  /** A frame is marked if and only if something lies on it. */
  lemma MarkedIff(c: Layout, m: Mem, b: nat)
    requires Agree(c, m) && b < |m.phys|
    ensures m.phys[b] <==> On(c, m.pte, b) || On(c, m.tables, b)
  {
  }

  // ----- one page at a time -----

  /** A frame of a pool that nothing uses. */
  predicate Fresh(c: Layout, m: Mem, f: nat) {
    IsFrame(c, f) && 0 <= BitFor(c, f) < |m.phys| && !m.phys[BitFor(c, f)]
  }

  function Marked(c: Layout, m: Mem, f: nat): Mem
    requires Fresh(c, m, f)
  {
    m.(phys := m.phys[BitFor(c, f) := true])
  }

  ghost predicate Unused(m: Mem, f: nat) {
    (forall k :: k in m.pte ==> m.pte[k] != f) && (forall k :: k in m.tables ==> m.tables[k] != f)
  }

  lemma UseFrame(c: Layout, m: Mem, f: nat)
    requires Core(c, m) && Fresh(c, m, f)
    ensures Core(c, Marked(c, m, f)) && Unused(m, f) && InUse(c, Marked(c, m, f).phys, f)
  {
    var m' := Marked(c, m, f);
    forall k, l ensures Apart(m', k, l) {
      assert Apart(m, k, l);
    }
  }

  lemma MarkLeaks(c: Layout, m: Mem, f: nat, but: set<int>)
    requires NoLeakBut(c, m, but) && Fresh(c, m, f)
    ensures NoLeakBut(c, Marked(c, m, f), but + {BitFor(c, f)})
  {
  }

  lemma OnAdded(c: Layout, entries: map<(Sid, nat), nat>, key: (Sid, nat), f: nat, b: int)
    requires key !in entries && (On(c, entries, b) || BitFor(c, f) == b)
    ensures On(c, entries[key := f], b)
  {
    var after := entries[key := f];
    if On(c, entries, b) {
      var k :| k in entries && BitFor(c, entries[k]) == b;
      assert k in after && after[k] == entries[k];
    } else {
      assert key in after && after[key] == f;
    }
  }

  lemma PteBacks(c: Layout, m: Mem, key: (Sid, nat), f: nat, but: set<int>)
    requires NoLeakBut(c, m, but + {BitFor(c, f)}) && key !in m.pte
    ensures NoLeakBut(c, m.(pte := m.pte[key := f]), but)
  {
    var m' := m.(pte := m.pte[key := f]);
    forall b | 0 <= b < |m.phys| && m.phys[b] && b !in but ensures On(c, m'.pte, b) || On(c, m'.tables, b) {
      if On(c, m.pte, b) || b == BitFor(c, f) {
        OnAdded(c, m.pte, key, f, b);
      }
    }
  }

  lemma TableBacks(c: Layout, m: Mem, key: (Sid, nat), t: nat, but: set<int>)
    requires NoLeakBut(c, m, but + {BitFor(c, t)}) && key !in m.tables
    ensures NoLeakBut(c, m.(tables := m.tables[key := t]), but)
  {
    var m' := m.(tables := m.tables[key := t]);
    forall b | 0 <= b < |m.phys| && m.phys[b] && b !in but ensures On(c, m'.pte, b) || On(c, m'.tables, b) {
      if On(c, m.tables, b) || b == BitFor(c, t) {
        OnAdded(c, m.tables, key, t, b);
      }
    }
  }

  lemma AddPte(c: Layout, m: Mem, sid: Sid, v: nat, f: nat)
    requires Core(c, m) && InUse(c, m.phys, f) && PdePresent(m, sid, v) && Unused(m, f) && (f < UserBase(c) <==> sid == KERNEL)
    ensures Core(c, m.(pte := m.pte[(sid, v) := f]))
  {
    var m' := m.(pte := m.pte[(sid, v) := f]);
    forall k, l ensures Apart(m', k, l) {
      assert Apart(m, k, l);
    }
  }

  lemma AddTable(c: Layout, m: Mem, sid: Sid, d: nat, t: nat)
    requires Core(c, m) && InUse(c, m.phys, t) && (sid, d) !in m.tables && Unused(m, t)
    ensures Core(c, m.(tables := m.tables[(sid, d) := t]))
  {
    var m' := m.(tables := m.tables[(sid, d) := t]);
    forall k, l ensures Apart(m', k, l) {
      assert Apart(m, k, l);
    }
  }

  /** No used frame was freed. */
  predicate Grows(phys: seq<bool>, phys': seq<bool>) {
    |phys| == |phys'| && forall i :: 0 <= i < |phys| && phys[i] ==> phys'[i]
  }

  ghost predicate TablesGrow(tables: map<(Sid, nat), nat>, tables': map<(Sid, nat), nat>) {
    forall k :: k in tables ==> k in tables' && tables'[k] == tables[k]
  }

  /** A pool has no free frame left. */
  ghost predicate Exhausted(c: Layout, m: Mem, kernel: bool) {
    forall f: nat :: Fresh(c, m, f) ==> !(f < UserBase(c) <==> kernel)
  }

  /** There is no frame for a page, or none for the page table it needs. */
  ghost predicate NoFrame(c: Layout, m: Mem, sid: Sid, v: nat) {
    Exhausted(c, m, sid == KERNEL) || (!PdePresent(m, sid, v) && Exhausted(c, m, true))
  }

  predicate MappedAt(m: Mem, sid: Sid, v: nat) {
    (sid, v) in m.pte
  }

  /** What one round of malloc_page changes: page (sid, v) now lies on a frame that was free. */
  ghost predicate OnePage(c: Layout, m: Mem, m': Mem, sid: Sid, v: nat) {
    && m'.vbits == m.vbits && |m'.phys| == |m.phys| && (sid, v) in m'.pte
    && (forall k :: k in m'.pte <==> k in m.pte || (k.0 == sid && k.1 == v))
    && (forall k :: k in m.pte ==> m'.pte[k] == m.pte[k])
    && Fresh(c, m, m'.pte[(sid, v)])
    && (m'.pte[(sid, v)] < UserBase(c) <==> sid == KERNEL)
    && Grows(m.phys, m'.phys) && TablesGrow(m.tables, m'.tables)
    && (sid == KERNEL ==> m'.tables == m.tables && m'.phys == m.phys[BitFor(c, m'.pte[(sid, v)]) := true])
  }

  // ----- runs of pages -----

  ghost predicate Unmapped(m: Mem, sid: Sid, v: nat, n: nat) {
    forall k :: k in m.pte ==> !(k.0 == sid && v <= k.1 < v + n)
  }

  /** Exactly the pages `v .. v + n` were added. */
  ghost predicate NewPages(m: Mem, m': Mem, sid: Sid, v: nat, n: nat) {
    && m'.vbits == m.vbits && |m'.phys| == |m.phys| && TablesGrow(m.tables, m'.tables)
    && (forall k :: k in m'.pte <==> k in m.pte || (k.0 == sid && v <= k.1 < v + n))
    && (forall k :: k in m.pte ==> m'.pte[k] == m.pte[k])
  }

  /** Some page of `v .. v + n` lies on the frame of bit `b`. */
  ghost predicate Covers(c: Layout, pte: map<(Sid, nat), nat>, sid: Sid, v: nat, n: nat, b: int) {
    exists k :: k in pte && k.0 == sid && v <= k.1 < v + n && BitFor(c, pte[k]) == b
  }

  /** In the kernel part, exactly the bits of the new frames were set, and they were clear. */
  ghost predicate KernelPages(c: Layout, m: Mem, m': Mem, v: nat, n: nat) {
    && m'.tables == m.tables && |m'.phys| == |m.phys|
    && (forall k :: k in m'.pte && k.0 == KERNEL && v <= k.1 < v + n ==> Fresh(c, m, m'.pte[k]) && m'.pte[k] < UserBase(c))
    && (forall b :: 0 <= b < |m.phys| ==> (m'.phys[b] <==> m.phys[b] || Covers(c, m'.pte, KERNEL, v, n, b)))
  }

  lemma NewPagesSnoc(c: Layout, m: Mem, m1: Mem, m2: Mem, sid: Sid, v: nat, n: nat)
    requires NewPages(m, m1, sid, v, n) && OnePage(c, m1, m2, sid, v + n)
    ensures NewPages(m, m2, sid, v, n + 1)
  {
  }

  lemma CoversSnoc(c: Layout, m1: Mem, m2: Mem, v: nat, n: nat, b: int)
    requires OnePage(c, m1, m2, KERNEL, v + n) && (KERNEL, v + n) !in m1.pte
    ensures Covers(c, m2.pte, KERNEL, v, n + 1, b) <==> BitFor(c, m2.pte[(KERNEL, v + n)]) == b || Covers(c, m1.pte, KERNEL, v, n, b)
  {
    var last := (KERNEL, v + n);
    if Covers(c, m2.pte, KERNEL, v, n + 1, b) {
      var k :| k in m2.pte && k.0 == KERNEL && v <= k.1 < v + n + 1 && BitFor(c, m2.pte[k]) == b;
      assert k.1 == v + n ==> k == last;
      assert k != last ==> k in m1.pte;
    }
    if Covers(c, m1.pte, KERNEL, v, n, b) {
      var k :| k in m1.pte && k.0 == KERNEL && v <= k.1 < v + n && BitFor(c, m1.pte[k]) == b;
      assert k in m2.pte && m2.pte[k] == m1.pte[k];
    }
    if BitFor(c, m2.pte[last]) == b {
      assert last in m2.pte && last.0 == KERNEL && last.1 == v + n;
    }
  }

  lemma KernelPagesSnoc(c: Layout, m: Mem, m1: Mem, m2: Mem, v: nat, n: nat)
    requires KernelPages(c, m, m1, v, n) && OnePage(c, m1, m2, KERNEL, v + n) && (KERNEL, v + n) !in m1.pte
    ensures KernelPages(c, m, m2, v, n + 1)
  {
    forall b | 0 <= b < |m.phys| ensures m2.phys[b] <==> m.phys[b] || Covers(c, m2.pte, KERNEL, v, n + 1, b) {
      CoversSnoc(c, m1, m2, v, n, b);
    }
    forall k | k in m2.pte && k.0 == KERNEL && v <= k.1 < v + n + 1
      ensures Fresh(c, m, m2.pte[k]) && m2.pte[k] < UserBase(c)
    {
      if k.1 == v + n { assert k == (KERNEL, v + n); } else { assert k in m1.pte; }
    }
  }

  /** Bits and mappings of one run of pages change together. */
  lemma RunAgrees(c: Layout, m: Mem, m': Mem, sid: Sid, v: nat, n: nat, value: bool)
    requires SizesOk(c, m) && VirtualAgrees(c, m) && sid in c.vbase
    requires c.vbase[sid] <= v && v - c.vbase[sid] + n <= |m.vbits[sid]|
    requires m'.vbits == m.vbits[sid := SetRun(m.vbits[sid], v - c.vbase[sid], n, value)]
    requires forall k :: k in m'.pte <==> if k.0 == sid && v <= k.1 < v + n then value else k in m.pte
    ensures VirtualAgrees(c, m')
  {
    forall k ensures VBit(c, m', k) <==> k in m'.pte {
      assert VBit(c, m, k) <==> k in m.pte;
    }
  }

  lemma FreeRunUnmapped(c: Layout, m: Mem, sid: Sid, v: nat, n: nat)
    requires SizesOk(c, m) && VirtualAgrees(c, m) && sid in c.vbase && FreeRun(m.vbits[sid], v - c.vbase[sid], n)
    ensures Unmapped(m, sid, v, n)
  {
    forall k | k in m.pte ensures !(k.0 == sid && v <= k.1 < v + n) {
      assert VBit(c, m, k);
    }
  }

  // ----- pfree -----

  /** The bit of `phys` that pfree clears: it takes the first user frame for a kernel one,
      and so counts it from the start of the kernel map. */
  function FreedBit(c: Layout, f: int): int {
    if f > UserBase(c) then KernelBits(c) + (f - UserBase(c)) else f - c.kernelBase
  }

  /** pfree clears the right bit of every frame, but of the first user frame only when the
      kernel pool has a multiple of 8 pages. */
  lemma PfreeRightIff(c: Layout, f: nat)
    requires LayoutOk(c) && IsFrame(c, f)
    ensures FreedBit(c, f) == BitFor(c, f) <==> (f == UserBase(c) ==> c.kernelPages % 8 == 0)
    ensures 0 <= FreedBit(c, f) < KernelBits(c) + UserBits(c)
  {
  }

  /** When it is wrong, it clears the bit of another user frame, kernelPages % 8 pages up. */
  lemma PfreeWrongFrame(c: Layout)
    requires LayoutOk(c) && c.kernelPages % 8 != 0 && c.userBytes > 0
    ensures var g := UserBase(c) + c.kernelPages % 8;
      IsFrame(c, UserBase(c)) && IsFrame(c, g) && g != UserBase(c) && FreedBit(c, UserBase(c)) == BitFor(c, g)
  {
  }

  // ----- freeing -----

  /** Exactly the pages `v .. v + n` and the bits of their frames went. */
  ghost predicate PagesGone(c: Layout, m: Mem, m': Mem, sid: Sid, v: nat, n: nat) {
    && m'.tables == m.tables && |m'.phys| == |m.phys|
    && (forall k :: k in m'.pte <==> k in m.pte && !(k.0 == sid && v <= k.1 < v + n))
    && (forall k :: k in m'.pte ==> m'.pte[k] == m.pte[k])
    && (forall b :: 0 <= b < |m.phys| ==> (m'.phys[b] <==> m.phys[b] && !Covers(c, m.pte, sid, v, n, b)))
  }

  lemma DropPage(c: Layout, m: Mem, sid: Sid, v: nat)
    requires Core(c, m) && (sid, v) in m.pte
    ensures var b := BitFor(c, m.pte[(sid, v)]);
      0 <= b < |m.phys| && Core(c, m.(phys := m.phys[b := false], pte := m.pte - {(sid, v)}))
  {
    var key := (sid, v);
    var b := BitFor(c, m.pte[key]);
    assert InUse(c, m.phys, m.pte[key]);
    var m' := m.(phys := m.phys[b := false], pte := m.pte - {key});
    forall k, l ensures Apart(m', k, l) {
      assert Apart(m, k, l);
    }
    forall k | k in m'.pte ensures InUse(c, m'.phys, m'.pte[k]) {
      assert Apart(m, k, key);
      assert InUse(c, m.phys, m.pte[k]);
    }
    forall k | k in m'.tables ensures InUse(c, m'.phys, m'.tables[k]) {
      assert Apart(m, key, k);
      assert InUse(c, m.phys, m.tables[k]);
    }
  }

  lemma NothingGone(c: Layout, m: Mem, sid: Sid, v: nat)
    ensures PagesGone(c, m, m, sid, v, 0)
  {
  }

  /** One page was unmapped and the bit of its frame cleared. */
  ghost predicate Dropped(c: Layout, m: Mem, m': Mem, sid: Sid, v: nat) {
    && m'.vbits == m.vbits && m'.tables == m.tables && |m'.phys| == |m.phys| && (sid, v) in m.pte
    && (forall k :: k in m'.pte <==> k in m.pte && !(k.0 == sid && k.1 == v))
    && (forall k :: k in m'.pte ==> m'.pte[k] == m.pte[k])
    && (forall b :: 0 <= b < |m.phys| ==> (m'.phys[b] <==> m.phys[b] && b != BitFor(c, m.pte[(sid, v)])))
  }

  lemma PagesGoneSnoc(c: Layout, m: Mem, m1: Mem, m2: Mem, sid: Sid, v: nat, n: nat)
    requires PagesGone(c, m, m1, sid, v, n) && Dropped(c, m1, m2, sid, v + n)
    ensures PagesGone(c, m, m2, sid, v, n + 1)
  {
    var last := (sid, v + n);
    var b0 := BitFor(c, m1.pte[last]);
    assert last in m.pte && b0 == BitFor(c, m.pte[last]);
    forall b | 0 <= b < |m.phys| ensures m2.phys[b] <==> m.phys[b] && !Covers(c, m.pte, sid, v, n + 1, b) {
      if Covers(c, m.pte, sid, v, n + 1, b) {
        var k :| k in m.pte && k.0 == sid && v <= k.1 < v + n + 1 && BitFor(c, m.pte[k]) == b;
        assert k.1 == v + n ==> k == last;
        assert b == b0 || Covers(c, m.pte, sid, v, n, b);
      }
      if Covers(c, m.pte, sid, v, n, b) {
        var k :| k in m.pte && k.0 == sid && v <= k.1 < v + n && BitFor(c, m.pte[k]) == b;
        assert Covers(c, m.pte, sid, v, n + 1, b);
      }
      if b == b0 {
        assert last in m.pte && last.0 == sid && last.1 == v + n;
        assert Covers(c, m.pte, sid, v, n + 1, b);
      }
    }
    forall k ensures k in m2.pte <==> k in m.pte && !(k.0 == sid && v <= k.1 < v + n + 1) {
      assert k.0 == sid && k.1 == v + n ==> k == last;
    }
  }

  lemma FreeRestoresFrames(c: Layout, m: Mem, m1: Mem, m2: Mem, v: nat, n: nat)
    requires KernelPages(c, m, m1, v, n) && PagesGone(c, m1, m2, KERNEL, v, n)
    ensures m2.phys == m.phys && m2.tables == m.tables
  {
    forall b | 0 <= b < |m.phys| ensures m2.phys[b] == m.phys[b] {
      if Covers(c, m1.pte, KERNEL, v, n, b) {
        var k :| k in m1.pte && k.0 == KERNEL && v <= k.1 < v + n && BitFor(c, m1.pte[k]) == b;
        assert Fresh(c, m, m1.pte[k]);
      }
    }
  }

  lemma FreeRestoresPages(c: Layout, m: Mem, m1: Mem, m2: Mem, sid: Sid, v: nat, n: nat)
    requires Unmapped(m, sid, v, n) && NewPages(m, m1, sid, v, n) && PagesGone(c, m1, m2, sid, v, n)
    ensures m2.pte == m.pte
  {
    assert m2.pte.Keys == m.pte.Keys;
  }

  /** The memory after vaddr_get: the run of bits is set. */
  function Reserved(c: Layout, m: Mem, sid: Sid, v: nat, n: nat, value: bool): Mem
    requires sid in c.vbase && sid in m.vbits && c.vbase[sid] <= v && v - c.vbase[sid] + n <= |m.vbits[sid]|
  {
    m.(vbits := m.vbits[sid := SetRun(m.vbits[sid], v - c.vbase[sid], n, value)])
  }

  /** Freeing what malloc_page has just handed out in the kernel part restores the virtual
      bitmap, the page table and the physical bitmap. */
  lemma FreeRestores(c: Layout, m: Mem, m1: Mem, m2: Mem, v: nat, n: nat)
    requires Agree(c, m) && c.vbase[KERNEL] <= v && FreeRun(m.vbits[KERNEL], v - c.vbase[KERNEL], n)
    requires var r := Reserved(c, m, KERNEL, v, n, true); NewPages(r, m1, KERNEL, v, n) && KernelPages(c, r, m1, v, n)
    requires PagesGone(c, m1, m2, KERNEL, v, n) && m2.vbits == Reserved(c, m1, KERNEL, v, n, false).vbits
    ensures m2 == m
  {
    var r := Reserved(c, m, KERNEL, v, n, true);
    SetThenClear(m.vbits[KERNEL], v - c.vbase[KERNEL], n);
    assert m2.vbits == m.vbits;
    FreeRunUnmapped(c, m, KERNEL, v, n);
    FreeRestoresPages(c, r, m1, m2, KERNEL, v, n);
    FreeRestoresFrames(c, r, m1, m2, v, n);
  }

  // ----- the code -----

  /** What malloc_page returns. `Stray`: the run of bits it found ends past its bitmap, so
      that setting it writes a foreign byte; the model does not go on from there. */
  datatype Answer = Addr(page: nat) | Null | Stray

  ghost predicate MappedRun(m: Mem, sid: Sid, v: nat, n: nat) {
    forall i: nat :: v <= i < v + n ==> MappedAt(m, sid, i)
  }

  /** pfree gets the frame right. */
  predicate RightBit(c: Layout, f: nat) {
    f == UserBase(c) ==> c.kernelPages % 8 == 0
  }

  predicate FreeableAt(c: Layout, m: Mem, sid: Sid, v: nat) {
    (sid, v) in m.pte && RightBit(c, m.pte[(sid, v)])
  }

  ghost predicate FreeableRun(c: Layout, m: Mem, sid: Sid, v: nat, n: nat) {
    forall i: nat :: v <= i < v + n ==> FreeableAt(c, m, sid, i)
  }

  /** Mapped kernel pages can always be freed, and all others if the kernel pool has a multiple
      of 8 pages. */
  lemma Freeable(c: Layout, m: Mem, sid: Sid, v: nat, n: nat)
    requires Core(c, m) && MappedRun(m, sid, v, n) && (sid == KERNEL || c.kernelPages % 8 == 0)
    ensures FreeableRun(c, m, sid, v, n)
  {
    forall i: nat | v <= i < v + n ensures FreeableAt(c, m, sid, i) {
      assert MappedAt(m, sid, i);
    }
  }

  /** malloc_page has mapped the first `k` pages, and there is no frame for the next. */
  ghost predicate StuckAt(c: Layout, m0: Mem, m: Mem, sid: Sid, v: nat, n: nat, k: nat) {
    k < n && MapState(c, m0, m, sid, v, k) && NoFrame(c, m, sid, v + k)
  }

  ghost predicate Stuck(c: Layout, m0: Mem, sid: Sid, v: nat, n: nat) {
    exists m, k: nat :: StuckAt(c, m0, m, sid, v, n, k)
  }

  /** The lowest run of user pages reaches up to the stack. */
  ghost predicate TooHigh(c: Layout, m: Mem, sid: Sid, n: nat)
    requires sid in c.vbase && sid in m.vbits
  {
    sid != KERNEL && exists i: nat :: LowestRun(m.vbits[sid], i, n) && c.vbase[sid] + i >= STACK_PAGE
  }

  /** Why malloc_page halts: a bad count, a full virtual bitmap, no room below the stack, or a
      pool that runs out of frames. */
  ghost predicate MallocHalts(c: Layout, m: Mem, sid: Sid, n: nat)
    requires sid in c.vbase && sid in m.vbits
  {
    || !(0 < n < MAX_MALLOC_PAGES) || AllSet(m.vbits[sid]) || TooHigh(c, m, sid, n)
    || exists i: nat :: LowestRun(m.vbits[sid], i, n) && Stuck(c, Reserved(c, m, sid, c.vbase[sid] + i, n, true), sid, c.vbase[sid] + i, n)
  }

  class Memory {
    const c: Layout
    var phys: seq<bool>
    var vbits: map<Sid, seq<bool>>
    var pte: map<(Sid, nat), nat>
    var tables: map<(Sid, nat), nat>

    ghost function View(): Mem
      reads this
    {
      Mem(phys, vbits, pte, tables)
    }

    constructor (c: Layout, m: Mem)
      ensures this.c == c && View() == m
    {
      this.c := c;
      phys, vbits, pte, tables := m.phys, m.vbits, m.pte, m.tables;
    }

    /** palloc: the lowest free frame of a pool; a full pool fails an ASSERT */
    method Palloc(kernel: bool) returns (r: Outcome<nat>)
      requires SizesOk(c, View())
      modifies this`phys
      ensures r.Halt? <==> Exhausted(c, old(View()), kernel)
      ensures r.Halt? ==> View() == old(View())
      ensures r.Done? ==> Fresh(c, old(View()), r.value) && View() == Marked(c, old(View()), r.value)
      ensures r.Done? ==> (r.value < UserBase(c) <==> kernel)
      ensures r.Done? ==> forall g: nat :: IsFrame(c, g) && (g < UserBase(c) <==> kernel) && g < r.value ==> !Fresh(c, old(View()), g)
    {
      var kb := KernelBits(c);
      if kernel {
        ghost var pool := phys[..kb];
        var i := ScanOne(phys[..kb]);
        assert forall g: nat :: c.kernelBase <= g < c.kernelBase + kb ==> phys[BitFor(c, g)] == pool[g - c.kernelBase];
        if i == -1 { return Halt; }
        assert Fresh(c, View(), c.kernelBase + i);
        phys := phys[i := true];
        r := Done(c.kernelBase + i);
      } else {
        ghost var pool := phys[kb..];
        var j := ScanOne(phys[kb..]);
        assert forall g: nat :: UserBase(c) <= g < UserBase(c) + UserBits(c) ==> phys[BitFor(c, g)] == pool[g - UserBase(c)];
        if j == -1 { return Halt; }
        assert Fresh(c, View(), UserBase(c) + j);
        phys := phys[kb + j := true];
        r := Done(UserBase(c) + j);
      }
    }

    /** The branch of page_table_add that needs a page table from the kernel pool */
    method NewTable(sid: Sid, d: nat, ghost but: set<int>) returns (halted: bool)
      requires Core(c, View()) && NoLeakBut(c, View(), but) && (sid, d) !in tables
      modifies this`phys, this`tables
      ensures halted <==> Exhausted(c, old(View()), true)
      ensures !halted ==> Core(c, View()) && NoLeakBut(c, View(), but) && Grows(old(phys), phys)
      ensures !halted ==> TablesGrow(old(tables), tables) && (sid, d) in tables && Fresh(c, old(View()), tables[(sid, d)])
      ensures !halted ==> tables == old(tables)[(sid, d) := tables[(sid, d)]]
    {
      var t := Palloc(true);
      if t.Halt? {
        return true;
      }
      UseFrame(c, old(View()), t.value);
      MarkLeaks(c, old(View()), t.value, but);
      AddTable(c, View(), sid, d, t.value);
      TableBacks(c, View(), (sid, d), t.value, but);
      tables := tables[(sid, d) := t.value];
      return false;
    }

    /** page_table_add, with a page table from the kernel pool when there is none yet */
    method PageTableAdd(sid: Sid, v: nat, f: nat) returns (halted: bool)
      requires Core(c, View()) && NoLeakBut(c, View(), {BitFor(c, f)})
      requires InUse(c, phys, f) && Unused(View(), f) && (f < UserBase(c) <==> sid == KERNEL)
      modifies this`phys, this`pte, this`tables
      ensures halted <==> if PdePresent(old(View()), sid, v) then MappedAt(old(View()), sid, v) else Exhausted(c, old(View()), true)
      ensures !halted ==> Sound(c, View()) && !MappedAt(old(View()), sid, v) && pte == old(pte)[(sid, v) := f]
      ensures !halted ==> Grows(old(phys), phys) && TablesGrow(old(tables), tables)
      ensures !halted && PdePresent(old(View()), sid, v) ==> View() == old(View()).(pte := pte)
    {
      if PdePresent(Mem(phys, vbits, pte, tables), sid, v) {
        if (sid, v) in pte {
          return true;
        }
      } else {
        assert (sid, v).0 == sid && (sid, v) !in pte;
        halted := NewTable(sid, v / PTES_PER_TABLE, {BitFor(c, f)});
        if halted {
          return;
        }
        StillUnused(c, old(View()), View(), f, sid, v / PTES_PER_TABLE);
      }
      AddPte(c, View(), sid, v, f);
      PteBacks(c, View(), (sid, v), f, {});
      pte := pte[(sid, v) := f];
      return false;
    }

    /** One round of malloc_page: a frame for virtual page `v` */
    method MapOne(sid: Sid, v: nat) returns (halted: bool)
      requires Sound(c, View())
      modifies this`phys, this`pte, this`tables
      ensures halted <==> MappedAt(old(View()), sid, v) || NoFrame(c, old(View()), sid, v)
      ensures !halted ==> Sound(c, View()) && OnePage(c, old(View()), View(), sid, v)
    {
      var f := Palloc(sid == KERNEL);
      if f.Halt? {
        return true;
      }
      FrameTaken(c, old(View()), f.value);
      TakenHalts(c, old(View()), sid, v, f.value);
      halted := PageTableAdd(sid, v, f.value);
      if !halted {
        PageMapped(c, old(View()), View(), sid, v, f.value);
      }
    }

    /** vaddr_get. `past` is the bit behind the virtual bitmap. */
    method VaddrGet(sid: Sid, n: nat, past: bool) returns (r: Outcome<Answer>)
      requires Agree(c, View()) && sid in c.vbase && n >= 1
      modifies this`vbits
      ensures r.Halt? <==> AllSet(old(vbits[sid])) || TooHigh(c, old(View()), sid, n)
      ensures r == Done(Null) || r == Done(Stray) ==> View() == old(View()) && NoRun(vbits[sid], n)
      ensures r == Done(Stray) ==> n >= 2 && !past
      ensures r.Done? && r.value.Addr? ==>
        && c.vbase[sid] <= r.value.page && LowestRun(old(vbits[sid]), r.value.page - c.vbase[sid], n)
        && View() == Reserved(c, old(View()), sid, r.value.page, n, true)
    {
      var bit := ScanRun(vbits[sid], past, n);
      ScanForAnswers(vbits[sid], past, n);
      if bit.Halt? {
        return Halt;
      }
      RunFoundOrNot(vbits[sid], past, n, bit.value);
      if bit.value == -1 {
        return Done(Null);
      }
      if bit.value + n > |vbits[sid]| {
        return Done(Stray);
      }
      var v := c.vbase[sid] + bit.value;
      if sid != KERNEL && v >= STACK_PAGE {
        return Halt;
      }
      vbits := vbits[sid := SetRun(vbits[sid], bit.value, n, true)];
      return Done(Addr(v));
    }

    /** malloc_page */
    method MallocPage(sid: Sid, n: nat, past: bool) returns (r: Outcome<Answer>)
      requires Agree(c, View()) && sid in c.vbase
      modifies this
      ensures r.Halt? ==> MallocHalts(c, old(View()), sid, n)
      ensures r.Done? ==> 0 < n < MAX_MALLOC_PAGES && Agree(c, View())
      ensures r == Done(Null) || r == Done(Stray) ==> View() == old(View()) && NoRun(vbits[sid], n)
      ensures r == Done(Stray) ==> n >= 2 && !past
      ensures r.Done? && r.value.Addr? ==> Handed(c, old(View()), View(), sid, r.value.page, n)
    {
      if !(0 < n < MAX_MALLOC_PAGES) {
        return Halt;
      }
      r := VaddrGet(sid, n, past);
      if r.Done? && r.value.Addr? {
        var v := r.value.page;
        FreeRunUnmapped(c, old(View()), sid, v, n);
        ReservedSound(c, old(View()), sid, v, n, true);
        var halted := MapRun(sid, v, n);
        if halted {
          assert LowestRun(old(vbits[sid]), v - c.vbase[sid], n);
          return Halt;
        }
        HandedAgrees(c, old(View()), View(), sid, v, n);
      }
    }

    /** One round of the loop of malloc_page, after `count` rounds from `m0` */
    method MapNext(ghost m0: Mem, sid: Sid, v: nat, count: nat, ghost n: nat) returns (halted: bool)
      requires count < n && MapState(c, m0, View(), sid, v, count) && Unmapped(m0, sid, v, n)
      modifies this`phys, this`pte, this`tables
      ensures halted ==> Stuck(c, m0, sid, v, n)
      ensures !halted ==> MapState(c, m0, View(), sid, v, count + 1)
    {
      ghost var before := View();
      assert (sid, v + count) !in pte;
      halted := MapOne(sid, v + count);
      if halted {
        assert StuckAt(c, m0, before, sid, v, n, count);
      } else {
        MapStateSnoc(c, m0, before, View(), sid, v, count);
      }
    }

    /** The loop of malloc_page */
    method MapRun(sid: Sid, v: nat, n: nat) returns (halted: bool)
      requires Sound(c, View()) && Unmapped(View(), sid, v, n)
      modifies this`phys, this`pte, this`tables
      ensures halted ==> Stuck(c, old(View()), sid, v, n)
      ensures !halted ==> MapState(c, old(View()), View(), sid, v, n)
    {
      var count := 0;
      MapStateStart(c, View(), sid, v);
      while count < n
        invariant 0 <= count <= n && MapState(c, old(View()), View(), sid, v, count)
      {
        halted := MapNext(old(View()), sid, v, count, n);
        if halted {
          return;
        }
        count := count + 1;
      }
      halted := false;
    }

    /** pfree and page_table_pte_remove of one page; the ASSERTs on its frame are proved */
    method FreeOne(sid: Sid, v: nat)
      requires LayoutOk(c) && Sound(c, View()) && FreeableAt(c, View(), sid, v)
      modifies this`phys, this`pte
      ensures Sound(c, View()) && Dropped(c, old(View()), View(), sid, v)
      ensures 0 <= FreedBit(c, old(pte)[(sid, v)]) < |old(phys)| && View() == Freed(c, old(View()), (sid, v))
    {
      var f := pte[(sid, v)];
      assert InUse(c, phys, f);
      assert f > LOW_FRAMES;
      assert f >= UserBase(c) <==> sid != KERNEL;
      assert sid == KERNEL ==> c.kernelBase <= f < UserBase(c);
      ghost var m' := FreedDrops(c, View(), sid, v);
      phys := phys[FreedBit(c, f) := false];
      pte := pte - {(sid, v)};
    }

    /** One round of the loop of mfree_page, after `cnt` rounds from `m0` */
    method UnmapNext(ghost m0: Mem, sid: Sid, v: nat, cnt: nat, ghost n: nat)
      requires cnt < n && LayoutOk(c) && UnmapState(c, m0, View(), sid, v, cnt, n)
      modifies this`phys, this`pte
      ensures UnmapState(c, m0, View(), sid, v, cnt + 1, n)
    {
      ghost var m' := UnmapStateSnoc(c, m0, View(), sid, v, cnt, n);
      FreeOne(sid, v + cnt);
    }

    /** The loop of mfree_page */
    method UnmapRun(sid: Sid, v: nat, n: nat)
      requires LayoutOk(c) && Sound(c, View()) && FreeableRun(c, View(), sid, v, n)
      modifies this`phys, this`pte
      ensures Sound(c, View()) && PagesGone(c, old(View()), View(), sid, v, n)
    {
      var cnt := 0;
      NothingGone(c, View(), sid, v);
      while cnt < n
        invariant 0 <= cnt <= n && UnmapState(c, old(View()), View(), sid, v, cnt, n)
      {
        UnmapNext(old(View()), sid, v, cnt, n);
        cnt := cnt + 1;
      }
    }

    /** mfree_page, of pages that are mapped and whose frames pfree gets right */
    method MfreePage(sid: Sid, v: nat, n: nat)
      requires LayoutOk(c) && Agree(c, View()) && sid in c.vbase && n >= 1 && FreeableRun(c, View(), sid, v, n)
      modifies this
      ensures Agree(c, View())
      ensures PagesGone(c, old(View()), View(), sid, v, n)
      ensures c.vbase[sid] <= v && v - c.vbase[sid] + n <= |old(vbits[sid])| && vbits == Reserved(c, old(View()), sid, v, n, false).vbits
    {
      RunInMap(c, View(), sid, v, n);
      UnmapRun(sid, v, n);
      ReservedSound(c, View(), sid, v, n, false);
      vbits := vbits[sid := SetRun(vbits[sid], v - c.vbase[sid], n, false)];
      RunAgrees(c, old(View()), View(), sid, v, n, false);
    }

    /** malloc_page and then mfree_page in the kernel part changes nothing. */
    method MallocThenFree(n: nat, past: bool) returns (r: Outcome<Answer>)
      requires LayoutOk(c) && Agree(c, View())
      modifies this
      ensures r.Halt? ==> MallocHalts(c, old(View()), KERNEL, n)
      ensures r.Done? ==> View() == old(View())
    {
      r := MallocPage(KERNEL, n, past);
      if r.Done? && r.value.Addr? {
        ghost var handed := View();
        HandedMapped(c, old(View()), View(), KERNEL, r.value.page, n);
        Freeable(c, View(), KERNEL, r.value.page, n);
        MfreePage(KERNEL, r.value.page, n);
        FreeRestores(c, old(View()), handed, View(), r.value.page, n);
      }
    }
  }

  /** malloc_page handed out pages `v .. v + n`: their bits were clear and are set, they and
      no others are newly mapped, and in the kernel part exactly their frames were taken. */
  ghost predicate Handed(c: Layout, m: Mem, m': Mem, sid: Sid, v: nat, n: nat) {
    && sid in c.vbase && sid in m.vbits && c.vbase[sid] <= v && LowestRun(m.vbits[sid], v - c.vbase[sid], n)
    && NewPages(Reserved(c, m, sid, v, n, true), m', sid, v, n)
    && (sid == KERNEL ==> KernelPages(c, Reserved(c, m, sid, v, n, true), m', v, n))
  }

  lemma HandedAgrees(c: Layout, m: Mem, m': Mem, sid: Sid, v: nat, n: nat)
    requires Agree(c, m) && Sound(c, m') && Handed(c, m, m', sid, v, n)
    ensures Agree(c, m')
  {
    RunAgrees(c, m, m', sid, v, n, true);
  }

  lemma RunFoundOrNot(bits: seq<bool>, past: bool, n: nat, i: int)
    requires n >= 1 && ScanAnswer(bits, past, n, Done(i))
    ensures i == -1 || i + n > |bits| ==> NoRun(bits, n)
    ensures i != -1 ==> 0 <= i && (i + n <= |bits| ==> LowestRun(bits, i, n)) && (i + n > |bits| ==> n >= 2 && !past)
  {
    if j :| FreeRun(bits, j, n) {
      ScanFindsLowest(bits, past, n, Done(i), j);
    } else {
      ScanStraysIff(bits, past, n, Done(i));
    }
  }

  lemma ReservedSound(c: Layout, m: Mem, sid: Sid, v: nat, n: nat, value: bool)
    requires Sound(c, m) && sid in c.vbase && c.vbase[sid] <= v && v - c.vbase[sid] + n <= |m.vbits[sid]|
    ensures Sound(c, Reserved(c, m, sid, v, n, value))
  {
    var m' := Reserved(c, m, sid, v, n, value);
    forall k, l ensures Apart(m', k, l) {
      assert Apart(m, k, l);
    }
  }

  lemma RunInMap(c: Layout, m: Mem, sid: Sid, v: nat, n: nat)
    requires Agree(c, m) && sid in c.vbase && n >= 1 && FreeableRun(c, m, sid, v, n)
    ensures c.vbase[sid] <= v && v - c.vbase[sid] + n <= |m.vbits[sid]|
  {
    assert FreeableAt(c, m, sid, v) && FreeableAt(c, m, sid, v + n - 1);
    assert VBit(c, m, (sid, v)) && VBit(c, m, (sid, v + n - 1));
  }

  lemma StillFreeable(c: Layout, m: Mem, m': Mem, sid: Sid, v: nat, n: nat)
    requires n >= 1 && FreeableRun(c, m, sid, v, n) && Dropped(c, m, m', sid, v)
    ensures FreeableRun(c, m', sid, v + 1, n - 1)
  {
    forall i: nat | v + 1 <= i < v + n ensures FreeableAt(c, m', sid, i) {
      assert FreeableAt(c, m, sid, i);
    }
  }

  lemma HandedMapped(c: Layout, m: Mem, m': Mem, sid: Sid, v: nat, n: nat)
    requires Handed(c, m, m', sid, v, n)
    ensures MappedRun(m', sid, v, n)
  {
    forall i: nat | v <= i < v + n ensures MappedAt(m', sid, i) {
      assert (sid, i).0 == sid && (sid, i).1 == i;
    }
  }

  /** The frames of the pages handed out, and of any new page table, were free. */
  lemma HandedFromFree(c: Layout, m: Mem, m': Mem, sid: Sid, v: nat, n: nat, k: (Sid, nat))
    requires LayoutOk(c) && Agree(c, m) && Agree(c, m') && Handed(c, m, m', sid, v, n)
    requires k !in m.pte && k !in m.tables
    ensures k in m'.pte ==> Fresh(c, m, m'.pte[k])
    ensures k in m'.tables ==> Fresh(c, m, m'.tables[k])
  {
    if k in m'.pte {
      NotThere(c, m, m', k, m'.pte[k]);
    }
    if k in m'.tables {
      NotThere(c, m, m', k, m'.tables[k]);
    }
  }

  lemma NotThere(c: Layout, m: Mem, m': Mem, k: (Sid, nat), f: nat)
    requires LayoutOk(c) && Sound(c, m) && Sound(c, m') && |m'.phys| == |m.phys| && TablesGrow(m.tables, m'.tables)
    requires forall l :: l in m.pte ==> l in m'.pte && m'.pte[l] == m.pte[l]
    requires k !in m.pte && k !in m.tables && ((k in m'.pte && m'.pte[k] == f) || (k in m'.tables && m'.tables[k] == f))
    ensures Fresh(c, m, f)
  {
    assert InUse(c, m'.phys, f);
    var b := BitFor(c, f);
    if On(c, m.pte, b) {
      var l :| l in m.pte && BitFor(c, m.pte[l]) == b;
      assert InUse(c, m.phys, m.pte[l]);
      assert Apart(m', l, k);
      BitForIsInjective(c, m.pte[l], f);
    }
    if On(c, m.tables, b) {
      var l :| l in m.tables && BitFor(c, m.tables[l]) == b;
      assert InUse(c, m.phys, m.tables[l]);
      assert Apart(m', l, k) && Apart(m', k, l);
      BitForIsInjective(c, m.tables[l], f);
    }
  }

  // ----- the loop of malloc_page -----

  /** After `k` rounds from `m0` */
  ghost predicate MapState(c: Layout, m0: Mem, m: Mem, sid: Sid, v: nat, k: nat) {
    Sound(c, m) && NewPages(m0, m, sid, v, k) && (sid == KERNEL ==> KernelPages(c, m0, m, v, k))
  }

  lemma MapStateStart(c: Layout, m: Mem, sid: Sid, v: nat)
    requires Sound(c, m)
    ensures MapState(c, m, m, sid, v, 0)
  {
  }

  lemma MapStateSnoc(c: Layout, m0: Mem, m: Mem, m': Mem, sid: Sid, v: nat, k: nat)
    requires MapState(c, m0, m, sid, v, k) && Sound(c, m') && OnePage(c, m, m', sid, v + k) && (sid, v + k) !in m.pte
    ensures MapState(c, m0, m', sid, v, k + 1)
  {
    NewPagesSnoc(c, m0, m, m', sid, v, k);
    if sid == KERNEL {
      KernelPagesSnoc(c, m0, m, m', v, k);
    }
  }

  /** The loop of mfree_page, after `k` rounds of `n` from `m0` */
  ghost predicate UnmapState(c: Layout, m0: Mem, m: Mem, sid: Sid, v: nat, k: nat, n: nat)
    requires k <= n
  {
    Sound(c, m) && PagesGone(c, m0, m, sid, v, k) && FreeableRun(c, m, sid, v + k, n - k)
  }

  lemma UnmapStateSnoc(c: Layout, m0: Mem, m: Mem, sid: Sid, v: nat, k: nat, n: nat) returns (m': Mem)
    requires LayoutOk(c) && k < n && UnmapState(c, m0, m, sid, v, k, n)
    ensures FreeableAt(c, m, sid, v + k) && 0 <= FreedBit(c, m.pte[(sid, v + k)]) < |m.phys|
    ensures m' == Freed(c, m, (sid, v + k)) && UnmapState(c, m0, m', sid, v, k + 1, n)
  {
    assert FreeableAt(c, m, sid, v + k);
    m' := FreedDrops(c, m, sid, v + k);
    UnmapStateDropped(c, m0, m, m', sid, v, k, n);
  }

  lemma UnmapStateDropped(c: Layout, m0: Mem, m: Mem, m': Mem, sid: Sid, v: nat, k: nat, n: nat)
    requires k < n && PagesGone(c, m0, m, sid, v, k) && FreeableRun(c, m, sid, v + k, n - k)
    requires Sound(c, m') && Dropped(c, m, m', sid, v + k)
    ensures UnmapState(c, m0, m', sid, v, k + 1, n)
  {
    PagesGoneSnoc(c, m0, m, m', sid, v, k);
    StillFreeable(c, m, m', sid, v + k, n - k);
  }

  /** A page whose frame pfree gets right is dropped, and nothing else changes. */
  lemma FreedDrops(c: Layout, m: Mem, sid: Sid, v: nat) returns (m': Mem)
    requires LayoutOk(c) && Sound(c, m) && FreeableAt(c, m, sid, v)
    ensures 0 <= FreedBit(c, m.pte[(sid, v)]) < |m.phys| && m' == Freed(c, m, (sid, v))
    ensures Sound(c, m') && Dropped(c, m, m', sid, v)
  {
    assert InUse(c, m.phys, m.pte[(sid, v)]);
    PfreeRightIff(c, m.pte[(sid, v)]);
    DropPage(c, m, sid, v);
    DropLeaksNot(c, m, sid, v);
    m' := Freed(c, m, (sid, v));
  }

  lemma StillUnused(c: Layout, m: Mem, m': Mem, f: nat, sid: Sid, d: nat)
    requires Unused(m, f) && InUse(c, m.phys, f) && m'.pte == m.pte && (sid, d) in m'.tables
    requires m'.tables == m.tables[(sid, d) := m'.tables[(sid, d)]] && Fresh(c, m, m'.tables[(sid, d)]) && Grows(m.phys, m'.phys)
    ensures Unused(m', f) && InUse(c, m'.phys, f)
  {
  }

  /** Taking a user frame leaves the kernel pool as it is. */
  lemma KernelPoolKept(c: Layout, m: Mem, f: nat)
    requires Fresh(c, m, f) && f >= UserBase(c) && SizesOk(c, m)
    ensures Exhausted(c, Marked(c, m, f), true) <==> Exhausted(c, m, true)
  {
    var m' := Marked(c, m, f);
    forall g: nat | g < UserBase(c) ensures Fresh(c, m', g) <==> Fresh(c, m, g) {
    }
  }

  lemma FrameTaken(c: Layout, m: Mem, f: nat)
    requires Sound(c, m) && Fresh(c, m, f)
    ensures Core(c, Marked(c, m, f)) && NoLeakBut(c, Marked(c, m, f), {BitFor(c, f)})
    ensures Unused(Marked(c, m, f), f) && InUse(c, Marked(c, m, f).phys, f)
  {
    UseFrame(c, m, f);
    MarkLeaks(c, m, f, {});
  }

  /** Once a frame for the page is found, only the page table can be missing. */
  lemma TakenHalts(c: Layout, m: Mem, sid: Sid, v: nat, f: nat)
    requires Core(c, m) && Fresh(c, m, f) && (f < UserBase(c) <==> sid == KERNEL)
    ensures (if PdePresent(Marked(c, m, f), sid, v) then MappedAt(Marked(c, m, f), sid, v) else Exhausted(c, Marked(c, m, f), true))
      <==> MappedAt(m, sid, v) || NoFrame(c, m, sid, v)
  {
    assert MappedAt(m, sid, v) ==> PdePresent(m, (sid, v).0, (sid, v).1);
    assert !Exhausted(c, m, sid == KERNEL);
    if sid != KERNEL {
      KernelPoolKept(c, m, f);
    }
  }

  lemma PageMapped(c: Layout, m: Mem, m': Mem, sid: Sid, v: nat, f: nat)
    requires Fresh(c, m, f) && (f < UserBase(c) <==> sid == KERNEL) && m'.vbits == m.vbits && m'.pte == m.pte[(sid, v) := f] && (sid, v) !in m.pte
    requires Grows(Marked(c, m, f).phys, m'.phys) && TablesGrow(m.tables, m'.tables)
    requires sid == KERNEL ==> m' == Marked(c, m, f).(pte := m'.pte)
    ensures OnePage(c, m, m', sid, v)
  {
  }

  // ----- freeing with the wrong bit -----

  lemma DropLeaksNot(c: Layout, m: Mem, sid: Sid, v: nat)
    requires NoLeak(c, m) && (sid, v) in m.pte && 0 <= BitFor(c, m.pte[(sid, v)]) < |m.phys|
    ensures NoLeak(c, m.(phys := m.phys[BitFor(c, m.pte[(sid, v)]) := false], pte := m.pte - {(sid, v)}))
  {
    var key := (sid, v);
    var b0 := BitFor(c, m.pte[key]);
    var m' := m.(phys := m.phys[b0 := false], pte := m.pte - {key});
    forall b | 0 <= b < |m'.phys| && m'.phys[b] ensures On(c, m'.pte, b) || On(c, m'.tables, b) {
      if On(c, m.pte, b) {
        var k :| k in m.pte && BitFor(c, m.pte[k]) == b;
        assert k in m'.pte;
      }
    }
  }

  /** What pfree and page_table_pte_remove do to one page, whatever its frame */
  function Freed(c: Layout, m: Mem, key: (Sid, nat)): Mem
    requires key in m.pte && 0 <= FreedBit(c, m.pte[key]) < |m.phys|
  {
    m.(phys := m.phys[FreedBit(c, m.pte[key]) := false], pte := m.pte - {key})
  }

  /** Freeing a page keeps page tables and physical bitmap in agreement if and only if pfree
      gets its frame right: it is not the first user frame, or the kernel pool has a multiple
      of 8 pages. */
  lemma FreeAgreesIff(c: Layout, m: Mem, sid: Sid, v: nat)
    requires LayoutOk(c) && Sound(c, m) && (sid, v) in m.pte
    ensures 0 <= FreedBit(c, m.pte[(sid, v)]) < |m.phys|
    ensures Sound(c, Freed(c, m, (sid, v))) <==> RightBit(c, m.pte[(sid, v)])
  {
    var key := (sid, v);
    var f := m.pte[key];
    assert InUse(c, m.phys, f);
    PfreeRightIff(c, f);
    if RightBit(c, f) {
      var m' := FreedDrops(c, m, sid, v);
    } else {
      StillMarked(c, m, key);
    }
  }

  lemma StillMarked(c: Layout, m: Mem, key: (Sid, nat))
    requires LayoutOk(c) && Sound(c, m) && key in m.pte && !RightBit(c, m.pte[key]) && 0 <= FreedBit(c, m.pte[key]) < |m.phys|
    ensures !NoLeak(c, Freed(c, m, key))
  {
    var f := m.pte[key];
    var m' := Freed(c, m, key);
    var b := BitFor(c, f);
    assert InUse(c, m.phys, f);
    PfreeRightIff(c, f);
    if On(c, m'.pte, b) {
      var k :| k in m'.pte && BitFor(c, m'.pte[k]) == b;
      assert InUse(c, m.phys, m.pte[k]);
      assert Apart(m, k, key);
      BitForIsInjective(c, m.pte[k], f);
    }
    if On(c, m'.tables, b) {
      var k :| k in m'.tables && BitFor(c, m'.tables[k]) == b;
      assert InUse(c, m.phys, m.tables[k]);
      assert Apart(m, key, k);
      BitForIsInjective(c, m.tables[k], f);
    }
    assert m'.phys[b];
  }
}
