/** copy_block_stack3 of src/user/fork.c: a forked child gets its own copy of every page that
    is allocated in its parent. */
module ForkCopy {
  import opened Machine
  import opened Pages

  /** The contents of a page; what the bytes are does not matter to a copy. */
  type Page = seq<bv8>

  type Ptes = map<(Sid, nat), nat>
  type Data = map<nat, Page>

  /** What page `v` of a space holds, as read through the page table. */
  function Held(pte: Ptes, data: Data, sid: Sid, v: nat): Option<Page> {
    if (sid, v) in pte && pte[(sid, v)] in data then Some(data[pte[(sid, v)]]) else None
  }

  /** Page `v` has its bit among the first `n` of the bitmap, and it is set. */
  predicate Wanted(bits: seq<bool>, base: nat, n: nat, v: nat) {
    base <= v < base + n && v - base < |bits| && bits[v - base]
  }

  // ----- what the copy has done after the first `n` bits -----

  /** The child has a page for each set bit, and no other. */
  ghost predicate ChildHas(m: Mem, child: Sid, bits: seq<bool>, base: nat, n: nat) {
    forall v: nat :: MappedAt(m, child, v) <==> Wanted(bits, base, n, v)
  }

  predicate SameEntry(m0: Mem, m: Mem, k: (Sid, nat)) {
    (k in m.pte <==> k in m0.pte) && (k in m0.pte && k in m.pte ==> m.pte[k] == m0.pte[k])
  }

  /** Nobody else's page table changed. */
  ghost predicate OthersKept(m0: Mem, m: Mem, child: Sid) {
    forall k: (Sid, nat) :: k.0 != child ==> SameEntry(m0, m, k)
  }

  /** The child's page `v` lies on a frame that was free and holds what the parent's page held. */
  predicate CopyOf(c: Layout, m0: Mem, data0: Data, m: Mem, data: Data, parent: Sid, child: Sid, v: nat) {
    MappedAt(m, child, v) && Fresh(c, m0, m.pte[(child, v)]) &&
    Held(m0.pte, data0, parent, v).Some? && Held(m.pte, data, child, v) == Held(m0.pte, data0, parent, v)
  }

  ghost predicate AllCopies(c: Layout, m0: Mem, data0: Data, m: Mem, data: Data, parent: Sid, child: Sid) {
    forall v: nat :: MappedAt(m, child, v) ==> CopyOf(c, m0, data0, m, data, parent, child, v)
  }

  /** No frame that was in use changed its contents. */
  ghost predicate DataKept(c: Layout, phys: seq<bool>, data0: Data, data: Data) {
    forall f: nat :: InUse(c, phys, f) && f in data0 ==> f in data && data[f] == data0[f]
  }

  ghost predicate Copied(c: Layout, m0: Mem, data0: Data, m: Mem, data: Data, parent: Sid, child: Sid, n: nat)
    requires parent in m0.vbits && parent in c.vbase
  {
    && m.vbits == m0.vbits && Grows(m0.phys, m.phys) && OthersKept(m0, m, child)
    && ChildHas(m, child, m0.vbits[parent], c.vbase[parent], n)
    && AllCopies(c, m0, data0, m, data, parent, child) && DataKept(c, m0.phys, data0, data)
  }

  /** sys_fork reaches the copy in this state: the child's bitmap is a copy of its parent's,
      its page directory is empty, and everything else agrees. */
  ghost predicate ForkStart(c: Layout, m: Mem, data: Data, parent: Sid, child: Sid) {
    && Sound(c, m) && parent in c.vbase && child in c.vbase && parent != child && parent != KERNEL && child != KERNEL
    && c.vbase[child] == c.vbase[parent] && m.vbits[child] == m.vbits[parent] && |m.vbits[parent]| % 8 == 0
    && (forall v: nat :: !MappedAt(m, child, v)) && OthersAgree(c, m, child)
    && (forall k :: k in m.pte ==> m.pte[k] in data)
  }

  /** Every page of the parent can be read. */
  ghost predicate Readable(c: Layout, m: Mem, data: Data, parent: Sid, child: Sid) {
    && parent in c.vbase && parent in m.vbits && parent != child && OthersAgree(c, m, child)
    && (forall k :: k in m.pte ==> m.pte[k] in data && InUse(c, m.phys, m.pte[k]))
  }

  lemma StartReadable(c: Layout, m: Mem, data: Data, parent: Sid, child: Sid)
    requires ForkStart(c, m, data, parent, child)
    ensures Readable(c, m, data, parent, child)
  {
  }

  lemma StartCopied(c: Layout, m: Mem, data: Data, parent: Sid, child: Sid)
    requires ForkStart(c, m, data, parent, child)
    ensures Copied(c, m, data, m, data, parent, child, 0)
  {
  }

  lemma SkipCopied(c: Layout, m0: Mem, data0: Data, m: Mem, data: Data, parent: Sid, child: Sid, n: nat)
    requires parent in m0.vbits && parent in c.vbase && Copied(c, m0, data0, m, data, parent, child, n)
    requires n < |m0.vbits[parent]| && !m0.vbits[parent][n]
    ensures Copied(c, m0, data0, m, data, parent, child, n + 1)
  {
  }

  /** Everybody's virtual bitmap but the child's agrees with the page tables. */
  ghost predicate OthersAgree(c: Layout, m: Mem, child: Sid) {
    forall k: (Sid, nat) :: k.0 != child ==> (VBit(c, m, k) <==> k in m.pte)
  }

  lemma CopyVirtual(c: Layout, m0: Mem, m: Mem, parent: Sid, child: Sid)
    requires parent in c.vbase && child in c.vbase && parent in m0.vbits && child in m0.vbits && m.vbits == m0.vbits
    requires c.vbase[child] == c.vbase[parent] && m0.vbits[child] == m0.vbits[parent]
    requires OthersAgree(c, m0, child) && OthersKept(m0, m, child)
    requires ChildHas(m, child, m0.vbits[parent], c.vbase[parent], |m0.vbits[parent]|)
    ensures VirtualAgrees(c, m)
  {
    forall k ensures VBit(c, m, k) <==> k in m.pte {
      assert VBit(c, m0, k) <==> VBit(c, m, k);
      if k.0 == child {
        assert MappedAt(m, child, k.1) <==> (child, k.1) in m.pte;
        assert k == (child, k.1);
      } else {
        assert SameEntry(m0, m, k);
      }
    }
  }

  /** Once the whole bitmap is done the child's structures agree as everybody else's do. */
  lemma CopyAgrees(c: Layout, m0: Mem, data0: Data, m: Mem, data: Data, parent: Sid, child: Sid)
    requires ForkStart(c, m0, data0, parent, child) && Sound(c, m)
    requires Copied(c, m0, data0, m, data, parent, child, |m0.vbits[parent]|)
    ensures Agree(c, m)
  {
    CopyVirtual(c, m0, m, parent, child);
  }

  // ----- one more page -----

  lemma OthersKeptStep(c: Layout, m0: Mem, m: Mem, m1: Mem, child: Sid, v: nat)
    requires OthersKept(m0, m, child) && OnePage(c, m, m1, child, v)
    ensures OthersKept(m0, m1, child)
  {
    forall k: (Sid, nat) | k.0 != child ensures SameEntry(m0, m1, k) {
      assert SameEntry(m0, m, k);
    }
  }

  lemma ChildHasStep(c: Layout, m: Mem, m1: Mem, child: Sid, bits: seq<bool>, base: nat, n: nat)
    requires ChildHas(m, child, bits, base, n) && OnePage(c, m, m1, child, base + n) && n < |bits| && bits[n]
    ensures ChildHas(m1, child, bits, base, n + 1)
  {
    forall v: nat ensures MappedAt(m1, child, v) <==> Wanted(bits, base, n + 1, v) {
      assert MappedAt(m, child, v) <==> Wanted(bits, base, n, v);
      assert v == base + n || (MappedAt(m1, child, v) <==> MappedAt(m, child, v));
    }
  }

  /** The new frame was free from the start and is not the frame of an earlier copy. */
  lemma CopiesKept(c: Layout, m0: Mem, data0: Data, m: Mem, data: Data, m1: Mem, page: Page, parent: Sid, child: Sid, v: nat, w: nat)
    requires Core(c, m) && OnePage(c, m, m1, child, v) && CopyOf(c, m0, data0, m, data, parent, child, w)
    ensures CopyOf(c, m0, data0, m1, data[m1.pte[(child, v)] := page], parent, child, w)
  {
    assert InUse(c, m.phys, m.pte[(child, w)]);
    assert m1.pte[(child, w)] == m.pte[(child, w)];
  }

  lemma NewCopy(c: Layout, m0: Mem, data0: Data, m: Mem, data: Data, m1: Mem, parent: Sid, child: Sid, v: nat)
    requires Grows(m0.phys, m.phys) && OnePage(c, m, m1, child, v)
    requires Held(m0.pte, data0, parent, v).Some?
    ensures CopyOf(c, m0, data0, m1, data[m1.pte[(child, v)] := Held(m0.pte, data0, parent, v).value], parent, child, v)
  {
  }

  lemma AllCopiesStep(c: Layout, m0: Mem, data0: Data, m: Mem, data: Data, m1: Mem, parent: Sid, child: Sid, v: nat)
    requires Core(c, m) && Grows(m0.phys, m.phys) && OnePage(c, m, m1, child, v) && AllCopies(c, m0, data0, m, data, parent, child)
    requires Held(m0.pte, data0, parent, v).Some?
    ensures AllCopies(c, m0, data0, m1, data[m1.pte[(child, v)] := Held(m0.pte, data0, parent, v).value], parent, child)
  {
    var page := Held(m0.pte, data0, parent, v).value;
    forall w: nat | MappedAt(m1, child, w)
      ensures CopyOf(c, m0, data0, m1, data[m1.pte[(child, v)] := page], parent, child, w)
    {
      if w == v {
        NewCopy(c, m0, data0, m, data, m1, parent, child, v);
      } else {
        assert MappedAt(m, child, w);
        CopiesKept(c, m0, data0, m, data, m1, page, parent, child, v, w);
      }
    }
  }

  lemma DataKeptStep(c: Layout, m0: Mem, data0: Data, m: Mem, data: Data, f: nat, page: Page)
    requires Grows(m0.phys, m.phys) && DataKept(c, m0.phys, data0, data) && Fresh(c, m, f)
    ensures DataKept(c, m0.phys, data0, data[f := page])
  {
  }

  /** The parent's page still holds what it held when the copy began. */
  lemma SourceHeld(c: Layout, m0: Mem, data0: Data, m: Mem, data: Data, parent: Sid, child: Sid, n: nat)
    requires Readable(c, m0, data0, parent, child) && OthersKept(m0, m, child) && DataKept(c, m0.phys, data0, data)
    requires n < |m0.vbits[parent]| && m0.vbits[parent][n]
    ensures var v := c.vbase[parent] + n; Held(m0.pte, data0, parent, v).Some? && Held(m.pte, data, parent, v) == Held(m0.pte, data0, parent, v)
  {
    var k := (parent, c.vbase[parent] + n);
    assert VBit(c, m0, k);
    assert SameEntry(m0, m, k) && InUse(c, m0.phys, m0.pte[k]);
  }

  lemma PageCopied(c: Layout, m0: Mem, data0: Data, m: Mem, data: Data, m1: Mem, parent: Sid, child: Sid, n: nat, page: Page)
    requires parent in m0.vbits && parent in c.vbase && Copied(c, m0, data0, m, data, parent, child, n) && Core(c, m)
    requires n < |m0.vbits[parent]| && m0.vbits[parent][n] && OnePage(c, m, m1, child, c.vbase[parent] + n)
    requires Held(m0.pte, data0, parent, c.vbase[parent] + n) == Some(page)
    ensures Copied(c, m0, data0, m1, data[m1.pte[(child, c.vbase[parent] + n)] := page], parent, child, n + 1)
  {
    var v := c.vbase[parent] + n;
    OthersKeptStep(c, m0, m, m1, child, v);
    ChildHasStep(c, m, m1, child, m0.vbits[parent], c.vbase[parent], n);
    AllCopiesStep(c, m0, data0, m, data, m1, parent, child, v);
    DataKeptStep(c, m0, data0, m, data, m1.pte[(child, v)], page);
  }

  /** The copy has got as far as bit `n`, and there is no frame for its page. */
  ghost predicate CopyStopsAt(c: Layout, m0: Mem, data0: Data, m: Mem, data: Data, parent: Sid, child: Sid, n: nat)
    requires parent in m0.vbits && parent in c.vbase
  {
    && n < |m0.vbits[parent]| && m0.vbits[parent][n] && Sound(c, m) && Copied(c, m0, data0, m, data, parent, child, n)
    && NoFrame(c, m, child, c.vbase[parent] + n)
  }

  ghost predicate CopyStops(c: Layout, m0: Mem, data0: Data, parent: Sid, child: Sid)
    requires parent in m0.vbits && parent in c.vbase
  {
    exists m, data, n: nat :: CopyStopsAt(c, m0, data0, m, data, parent, child, n)
  }

  lemma StopWitness(c: Layout, m0: Mem, data0: Data, m: Mem, data: Data, parent: Sid, child: Sid, n: nat)
    requires parent in m0.vbits && parent in c.vbase && Sound(c, m) && Copied(c, m0, data0, m, data, parent, child, n)
    requires n < |m0.vbits[parent]| && m0.vbits[parent][n]
    ensures NoFrame(c, m, child, c.vbase[parent] + n) ==> CopyStops(c, m0, data0, parent, child)
  {
    assert NoFrame(c, m, child, c.vbase[parent] + n) ==> CopyStopsAt(c, m0, data0, m, data, parent, child, n);
  }

  /** The child has no page yet where the next bit stands. */
  lemma NotYetMapped(c: Layout, m0: Mem, data0: Data, m: Mem, data: Data, parent: Sid, child: Sid, n: nat)
    requires parent in m0.vbits && parent in c.vbase && Copied(c, m0, data0, m, data, parent, child, n)
    ensures !MappedAt(m, child, c.vbase[parent] + n)
  {
  }

  class Forker {
    const mem: Memory
    var data: Data

    constructor (mem: Memory, data: Data)
      ensures this.mem == mem && this.data == data
    {
      this.mem, this.data := mem, data;
    }

    /** copy_block_stack3. It halts only when a pool runs out of frames. */
    method CopyPages(parent: Sid, child: Sid) returns (halted: bool)
      requires ForkStart(mem.c, mem.View(), data, parent, child)
      modifies this, mem
      ensures halted ==> CopyStops(mem.c, old(mem.View()), old(data), parent, child)
      ensures !halted ==> Agree(mem.c, mem.View())
      ensures !halted ==> Copied(mem.c, old(mem.View()), old(data), mem.View(), data, parent, child, |old(mem.vbits[parent])|)
    {
      ghost var m0, data0 := mem.View(), data;
      StartCopied(mem.c, m0, data0, parent, child);
      StartReadable(mem.c, m0, data0, parent, child);
      var idxByte := 0;
      while idxByte < |mem.vbits[parent]| / 8
        invariant 0 <= idxByte <= |m0.vbits[parent]| / 8 && mem.vbits == m0.vbits && Sound(mem.c, mem.View())
        invariant Copied(mem.c, m0, data0, mem.View(), data, parent, child, 8 * idxByte)
      {
        halted := CopyByte(m0, data0, parent, child, idxByte);
        if halted {
          return;
        }
        idxByte := idxByte + 1;
      }
      CopyAgrees(mem.c, m0, data0, mem.View(), data, parent, child);
      return false;
    }

    /** The loop over the bits of one byte of the bitmap */
    method CopyByte(ghost m0: Mem, ghost data0: Data, parent: Sid, child: Sid, idxByte: nat) returns (halted: bool)
      requires Readable(mem.c, m0, data0, parent, child) && Sound(mem.c, mem.View()) && 8 * idxByte + 8 <= |m0.vbits[parent]|
      requires Copied(mem.c, m0, data0, mem.View(), data, parent, child, 8 * idxByte)
      modifies this, mem
      ensures halted ==> CopyStops(mem.c, m0, data0, parent, child)
      ensures !halted ==> Sound(mem.c, mem.View()) && Copied(mem.c, m0, data0, mem.View(), data, parent, child, 8 * idxByte + 8)
    {
      var idxBit := 0;
      while idxBit < 8
        invariant 0 <= idxBit <= 8 && Sound(mem.c, mem.View())
        invariant Copied(mem.c, m0, data0, mem.View(), data, parent, child, 8 * idxByte + idxBit)
      {
        halted := CopyBit(m0, data0, parent, child, 8 * idxByte + idxBit);
        if halted {
          return;
        }
        idxBit := idxBit + 1;
      }
      return false;
    }

    method CopyBit(ghost m0: Mem, ghost data0: Data, parent: Sid, child: Sid, n: nat) returns (halted: bool)
      requires Readable(mem.c, m0, data0, parent, child) && Sound(mem.c, mem.View()) && n < |m0.vbits[parent]|
      requires Copied(mem.c, m0, data0, mem.View(), data, parent, child, n)
      modifies this, mem
      ensures halted ==> CopyStops(mem.c, m0, data0, parent, child)
      ensures !halted ==> Sound(mem.c, mem.View()) && Copied(mem.c, m0, data0, mem.View(), data, parent, child, n + 1)
    {
      halted := false;
      if mem.vbits[parent][n] {
        SourceHeld(mem.c, m0, data0, mem.View(), data, parent, child, n);
        var buf := data[mem.pte[(parent, mem.c.vbase[parent] + n)]];
        halted := CopyPage(m0, data0, parent, child, n, buf);
      } else {
        SkipCopied(mem.c, m0, data0, mem.View(), data, parent, child, n);
      }
    }

    /** The page in the kernel buffer goes to a new frame of the child */
    method CopyPage(ghost m0: Mem, ghost data0: Data, parent: Sid, child: Sid, n: nat, buf: Page) returns (halted: bool)
      requires parent in m0.vbits && parent in mem.c.vbase && Sound(mem.c, mem.View())
      requires Copied(mem.c, m0, data0, mem.View(), data, parent, child, n) && n < |m0.vbits[parent]| && m0.vbits[parent][n]
      requires Held(m0.pte, data0, parent, mem.c.vbase[parent] + n) == Some(buf)
      modifies this, mem
      ensures halted ==> CopyStops(mem.c, m0, data0, parent, child)
      ensures !halted ==> Sound(mem.c, mem.View()) && Copied(mem.c, m0, data0, mem.View(), data, parent, child, n + 1)
    {
      ghost var c, m, data1 := mem.c, mem.View(), data;
      var v := mem.c.vbase[parent] + n;
      NotYetMapped(c, m0, data0, m, data1, parent, child, n);
      StopWitness(c, m0, data0, m, data1, parent, child, n);
      halted := mem.MapOne(child, v);
      if !halted {
        ghost var m1 := mem.View();
        PageCopied(c, m0, data0, m, data1, m1, parent, child, n, buf);
        data := data[mem.pte[(child, v)] := buf];
        assert mem.View() == m1;
      }
    }
  }
}
