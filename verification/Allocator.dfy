/** sys_malloc and sys_free of src/kernel/memory.c as code, on top of the page level. */
module Allocator {
  import opened Machine
  import opened Arenas
  import opened Bitmap
  import P = Pages

  /** Every page of every arena is mapped. */
  ghost predicate PagesHeld(m: P.Mem, sid: P.Sid, arenas: map<nat, Arena>) {
    forall a :: a in arenas ==> P.MappedRun(m, sid, a, Extent(arenas[a]))
  }

  /** What malloc_page hands out lies in no arena. */
  lemma HandedFresh(c: P.Layout, m: P.Mem, m': P.Mem, sid: P.Sid, arenas: map<nat, Arena>, v: nat, n: nat)
    requires P.Agree(c, m) && P.Handed(c, m, m', sid, v, n) && PagesHeld(m, sid, arenas) && n >= 1
    requires forall a :: a in arenas ==> Extent(arenas[a]) >= 1
    ensures FreshPages(arenas, v, n) && v !in arenas
  {
    P.FreeRunUnmapped(c, m, sid, v, n);
    forall x | x in arenas ensures x + Extent(arenas[x]) <= v || v + n <= x {
      var p := if x < v then v else x;
      assert x <= p < x + Extent(arenas[x]) ==> P.MappedAt(m, sid, p);
      assert (sid, p).0 == sid && (sid, p).1 == p;
      assert P.MappedAt(m, sid, p) ==> !(v <= p < v + n);
    }
  }

  lemma HandedHeld(c: P.Layout, m: P.Mem, m': P.Mem, sid: P.Sid, arenas: map<nat, Arena>, v: nat, n: nat, r: Arena)
    requires P.Handed(c, m, m', sid, v, n) && PagesHeld(m, sid, arenas) && Extent(r) == n
    ensures PagesHeld(m', sid, arenas) && PagesHeld(m', sid, arenas[v := r])
  {
    P.HandedMapped(c, m, m', sid, v, n);
    forall a | a in arenas ensures P.MappedRun(m', sid, a, Extent(arenas[a])) {
      forall i: nat | a <= i < a + Extent(arenas[a]) ensures P.MappedAt(m', sid, i) {
        assert P.MappedAt(m, sid, i);
      }
    }
  }

  lemma GoneHeld(c: P.Layout, m: P.Mem, m': P.Mem, sid: P.Sid, arenas: map<nat, Arena>, a: nat)
    requires a in arenas && ArenasApart(arenas) && PagesHeld(m, sid, arenas) && P.PagesGone(c, m, m', sid, a, Extent(arenas[a]))
    ensures PagesHeld(m', sid, arenas - {a})
  {
    forall x | x in arenas && x != a ensures P.MappedRun(m', sid, x, Extent(arenas[x])) {
      forall i: nat | x <= i < x + Extent(arenas[x]) ensures P.MappedAt(m', sid, i) {
        assert P.MappedAt(m, sid, i);
        assert (sid, i).1 == i;
      }
    }
  }

  lemma ExtentsPositive(h: Heap)
    requires Inv(h)
    ensures forall a :: a in h.arenas ==> Extent(h.arenas[a]) >= 1
  {
    forall a | a in h.arenas ensures Extent(h.arenas[a]) >= 1 { assert ArenaOk(h, a); }
  }

  lemma PopHeld(h: Heap, d: nat, size: nat, m: P.Mem, sid: P.Sid)
    requires PopRequires(h, d) && PagesHeld(m, sid, h.arenas)
    ensures PagesHeld(m, sid, Arenas.PopBlock(h, d, size).arenas)
  {
  }

  lemma PushHeld(h: Heap, b: nat, m: P.Mem, sid: P.Sid)
    requires LiveSmall(h, b) && PagesHeld(m, sid, h.arenas)
    ensures PagesHeld(m, sid, PushBlock(h, b).arenas)
  {
  }

  /** A free list that is not empty, or has just been filled, can be popped. */
  lemma Ready(h: Heap, d: nat, size: nat, page: Option<nat>)
    requires Inv(h) && 0 < size <= MAX_SMALL && d == DescFor(size)
    requires h.frees[d] == [] ==> page.Some? && FreshPages(h.arenas, page.value, 1) && page.value !in h.arenas
    ensures PopRequires(if h.frees[d] == [] then NewArena(h, d, page.value) else h, d)
  {
    if h.frees[d] == [] {
      NewArenaConsistent(h, d, page.value);
      PopPossible(NewArena(h, d, page.value), d);
    } else {
      PopPossible(h, d);
    }
  }

  /** None of the pages is mapped any more. */
  ghost predicate Unmapped(m: P.Mem, sid: P.Sid, a: nat, n: nat) {
    forall i: nat :: a <= i < a + n ==> !P.MappedAt(m, sid, i)
  }

  /** pfree gets every frame of the space right. */
  predicate PfreeRight(c: P.Layout, sid: P.Sid) {
    sid == P.KERNEL || c.kernelPages % 8 == 0
  }

  /** The call of malloc_page does not come back, or with pages that end past the bitmap. */
  ghost predicate MallocStops(c: P.Layout, m: P.Mem, sid: P.Sid, n: nat, past: bool)
    requires sid in c.vbase && sid in m.vbits
  {
    P.MallocHalts(c, m, sid, n) || (n >= 2 && !past && NoRun(m.vbits[sid], n))
  }

  /** The heap of one address space: the kernel's, or a process's own. */
  class HeapManager {
    const mem: P.Memory
    const sid: P.Sid
    const poolSize: nat
    var arenas: map<nat, Arena>
    var frees: seq<seq<nat>>
    ghost var live: map<nat, nat>

    ghost function View(): Heap
      reads this
    {
      Heap(arenas, frees, live)
    }

    ghost predicate Valid()
      reads this, mem
    {
      Inv(View()) && PagesOk()
    }

    /** The page level agrees, and has every page of every arena mapped. */
    ghost predicate PagesOk()
      reads this, mem
    {
      && P.LayoutOk(mem.c) && PfreeRight(mem.c, sid)
      && P.Agree(mem.c, mem.View()) && sid in mem.c.vbase && PagesHeld(mem.View(), sid, arenas)
    }

    constructor (mem: P.Memory, sid: P.Sid, poolSize: nat)
      requires P.LayoutOk(mem.c) && PfreeRight(mem.c, sid) && P.Agree(mem.c, mem.View()) && sid in mem.c.vbase
      ensures Valid() && this.mem == mem && this.sid == sid && live == map[]
    {
      this.mem, this.sid, this.poolSize := mem, sid, poolSize;
      arenas, frees, live := map[], seq(DESC_CNT, _ => []), map[];
    }

    /** The call of malloc_page inside sys_malloc; a run of pages that ends past the virtual
        bitmap is not followed further. */
    method GetPages(n: nat, past: bool, ghost x: Arena) returns (r: Outcome<Option<nat>>)
      requires Valid() && Extent(x) == n
      modifies mem
      ensures r.Halt? ==> MallocStops(mem.c, old(mem.View()), sid, n, past)
      ensures r.Done? ==> P.Agree(mem.c, mem.View()) && PagesHeld(mem.View(), sid, arenas)
      ensures r.Done? && r.value.Some? ==>
        FreshPages(arenas, r.value.value, n) && r.value.value !in arenas && PagesHeld(mem.View(), sid, arenas[r.value.value := x])
    {
      ghost var before := mem.View();
      var answer := mem.MallocPage(sid, n, past);
      if answer.Halt? || answer.value.Stray? {
        return Halt;
      }
      if answer.value.Null? {
        return Done(None);
      }
      var v := answer.value.page;
      ExtentsPositive(View());
      HandedFresh(mem.c, before, mem.View(), sid, arenas, v, n);
      HandedHeld(mem.c, before, mem.View(), sid, arenas, v, n, x);
      return Done(Some(v));
    }

    /** The loop of sys_malloc that puts the blocks of a new arena on the free list */
    method SplitArena(d: nat, a: nat)
      requires Inv(View()) && d < DESC_CNT && a !in arenas
      modifies this
      ensures View() == NewArena(old(View()), d, a)
    {
      arenas := arenas[a := Small(d, PerArena(d))];
      BlocksDistinct(a, d);
      ghost var base := frees[d];
      var i := 0;
      assert base + Blocks(a, d)[..0] == base;
      assert frees == old(frees)[d := base];
      while i < PerArena(d)
        invariant 0 <= i <= PerArena(d) && |frees| == DESC_CNT && live == old(live) && arenas == old(arenas)[a := Small(d, PerArena(d))]
        invariant frees == old(frees)[d := base + Blocks(a, d)[..i]]
      {
        var b := Block(a, d, i);
        assert b == Blocks(a, d)[i];
        assert b !in base by { BlockInArena(a, d, i); }
        assert b !in frees[d];                     // ASSERT(!elem_find(...))
        assert base + Blocks(a, d)[..i + 1] == base + Blocks(a, d)[..i] + [b];
        frees := frees[d := frees[d] + [b]];
        i := i + 1;
      }
      assert Blocks(a, d)[..i] == Blocks(a, d);
    }

    /** sys_malloc; `page` is what malloc_page answered, if it was asked */
    method SysMalloc(size: nat, past: bool) returns (r: Outcome<Option<nat>>, ghost page: Option<nat>)
      requires Valid()
      modifies this, mem
      ensures r.Halt? ==> NeedsPages(old(View()), poolSize, size) && MallocStops(mem.c, old(mem.View()), sid, PagesFor(size), past)
      ensures r.Done? ==> Valid() && PageOk(old(View()), poolSize, size, page)
      ensures r.Done? ==> (r.value, View()) == Malloc(old(View()), poolSize, size, page)
    {
      page := None;
      ghost var spec := Malloc(View(), poolSize, size, page);
      if !(0 < size < poolSize) {
        return Done(None), page;
      }
      if size > MAX_SMALL {
        r, page := MallocLarge(size, past);
      } else {
        r, page := MallocSmall(size, past);
      }
    }

    /** The header of a large arena */
    method StampLarge(a: nat, size: nat)
      modifies this
      ensures View() == NewLarge(old(View()), a, size)
    {
      arenas := arenas[a := Large(LargePages(size))];
      live := live[a * PG_SIZE + HEADER := size];
    }

    method MallocLarge(size: nat, past: bool) returns (r: Outcome<Option<nat>>, ghost page: Option<nat>)
      requires Valid() && MAX_SMALL < size < poolSize
      modifies this, mem
      ensures r.Halt? ==> MallocStops(mem.c, old(mem.View()), sid, LargePages(size), past)
      ensures r.Done? ==> Valid() && PageOk(old(View()), poolSize, size, page)
      ensures r.Done? ==> (r.value, View()) == Malloc(old(View()), poolSize, size, page)
    {
      var got := GetPages(LargePages(size), past, Large(LargePages(size)));
      if got.Halt? {
        return Halt, None;
      }
      page := got.value;
      MallocIsLarge(View(), poolSize, size, page);
      r := Done(None);
      if got.value.Some? {
        StampLarge(got.value.value, size);
        r := Done(Some(got.value.value * PG_SIZE + HEADER));
      }
    }

    /** Make sure the free list of descriptor `d` has a block, from a new arena if need be */
    method FillList(d: nat, past: bool) returns (r: Outcome<Option<nat>>)
      requires Valid() && d < DESC_CNT
      modifies this, mem
      ensures r.Halt? ==> old(frees[d]) == [] && MallocStops(mem.c, old(mem.View()), sid, 1, past)
      ensures r.Done? ==> P.Agree(mem.c, mem.View()) && PagesHeld(mem.View(), sid, arenas)
      ensures r.Done? && old(frees[d]) != [] ==> View() == old(View())
      ensures r.Done? && old(frees[d]) == [] && r.value == None ==> View() == old(View())
      ensures r.Done? && old(frees[d]) == [] && r.value.Some? ==>
        FreshPages(old(arenas), r.value.value, 1) && r.value.value !in old(arenas) && View() == NewArena(old(View()), d, r.value.value)
    {
      if frees[d] != [] {
        return Done(None);
      }
      r := GetPages(1, past, Small(d, PerArena(d)));
      if r.Done? && r.value.Some? {
        SplitArena(d, r.value.value);
      }
    }

    method MallocSmall(size: nat, past: bool) returns (r: Outcome<Option<nat>>, ghost page: Option<nat>)
      requires Valid() && 0 < size <= MAX_SMALL && size < poolSize
      modifies this, mem
      ensures r.Halt? ==> NeedsPages(old(View()), poolSize, size) && MallocStops(mem.c, old(mem.View()), sid, 1, past)
      ensures r.Done? ==> Valid() && PageOk(old(View()), poolSize, size, page)
      ensures r.Done? ==> (r.value, View()) == Malloc(old(View()), poolSize, size, page)
    {
      var d := DescFor(size);
      var got := FillList(d, past);
      if got.Halt? {
        return Halt, None;
      }
      page := got.value;
      ghost var spec := Malloc(old(View()), poolSize, size, page);
      if frees[d] == [] {
        return Done(None), page;
      }
      assert PopRequires(View(), d) by { Ready(old(View()), d, size, page); }
      PopHeld(View(), d, size, mem.View(), sid);
      var b := PopBlock(d, size);
      return Done(Some(b)), page;
    }

    /** list_pop, and the count of the arena the block comes from */
    method PopBlock(d: nat, size: nat) returns (b: nat)
      requires PopRequires(View(), d)
      modifies this
      ensures b == old(frees[d][0]) && View() == Arenas.PopBlock(old(View()), d, size)
    {
      b := frees[d][0];
      frees := frees[d := frees[d][1..]];
      var a := ArenaOf(b);
      arenas := arenas[a := arenas[a].(cnt := arenas[a].cnt - 1)];
      live := live[b := size];
    }

    /** Take the blocks of a wholly free arena off its list */
    method RemoveBlocks(d: nat, a: nat)
      requires d < DESC_CNT && Consistent(View()) && a in arenas && arenas[a] == Small(d, PerArena(d))
      modifies this`frees
      ensures frees == old(frees)[d := Outside(old(frees[d]), a)]
    {
      forall i: nat | i < PerArena(d) ensures Block(a, d, i) in frees[d] { AllFree(View(), a, i); }
      RemovedAll(View(), d, a);
      var list := RemoveEach(frees[d], a, d);
      frees := frees[d := list];
    }

    /** sys_free of a block that was handed out and not yet freed */
    method SysFree(b: nat)
      requires Valid() && b in live
      modifies this, mem
      ensures Valid() && View() == Free(old(View()), b)
      ensures forall a :: a in old(arenas) && a !in arenas ==> Unmapped(mem.View(), sid, a, Extent(old(arenas)[a]))
    {
      ghost var spec := Free(View(), b);
      FreeIs(View(), b);
      if arenas[ArenaOf(b)].Large? {
        FreeLarge(b);
      } else {
        FreeSmall(b);
      }
      assert ArenaOf(b) !in arenas ==> Unmapped(mem.View(), sid, ArenaOf(b), Extent(old(arenas)[ArenaOf(b)]));
    }

    method FreeLarge(b: nat)
      requires PagesOk() && ArenasApart(arenas) && b in live && ArenaOf(b) in arenas && arenas[ArenaOf(b)].Large? && arenas[ArenaOf(b)].pages >= 1
      modifies this, mem
      ensures PagesOk() && View() == DropLarge(old(View()), b)
      ensures Unmapped(mem.View(), sid, ArenaOf(b), Extent(old(arenas)[ArenaOf(b)]))
    {
      var a := ArenaOf(b);
      GiveBack(a, arenas[a].pages);
      live := live - {b};
      arenas := arenas - {a};
    }

    method FreeSmall(b: nat)
      requires PagesOk() && Consistent(View()) && LiveSmall(View(), b)
      modifies this, mem
      ensures PagesOk() && var h := PushBlock(old(View()), b); var a := ArenaOf(b);
        if h.arenas[a].cnt == PerArena(h.arenas[a].desc) then View() == DropArena(h, a) && Unmapped(mem.View(), sid, a, 1) else View() == h
    {
      PushConsistent(View(), b);
      PushHeld(View(), b, mem.View(), sid);
      var a := ArenaOf(b);
      var d := arenas[a].desc;
      PushBack(b);
      if arenas[a].cnt == PerArena(d) {
        RemoveBlocks(d, a);
        GiveBack(a, 1);
        arenas := arenas - {a};
      }
    }

    /** list_append, and the count of the arena the block goes back to */
    method PushBack(b: nat)
      requires |frees| == DESC_CNT && ArenaOf(b) in arenas && arenas[ArenaOf(b)].Small? && arenas[ArenaOf(b)].desc < DESC_CNT
      modifies this
      ensures View() == PushBlock(old(View()), b)
    {
      var a := ArenaOf(b);
      var d := arenas[a].desc;
      frees := frees[d := frees[d] + [b]];
      arenas := arenas[a := arenas[a].(cnt := arenas[a].cnt + 1)];
      live := live - {b};
    }

    /** mfree_page of an arena's pages */
    method GiveBack(a: nat, n: nat)
      requires P.LayoutOk(mem.c) && PfreeRight(mem.c, sid) && P.Agree(mem.c, mem.View()) && sid in mem.c.vbase
      requires ArenasApart(arenas) && a in arenas && Extent(arenas[a]) == n && n >= 1 && PagesHeld(mem.View(), sid, arenas)
      modifies mem
      ensures P.Agree(mem.c, mem.View()) && PagesHeld(mem.View(), sid, arenas - {a})
      ensures Unmapped(mem.View(), sid, a, n)
    {
      ghost var before := mem.View();
      P.Freeable(mem.c, before, sid, a, n);
      mem.MfreePage(sid, a, n);
      GoneHeld(mem.c, before, mem.View(), sid, arenas, a);
      forall i: nat | a <= i < a + n ensures !P.MappedAt(mem.View(), sid, i) {
        assert (sid, i).0 == sid && (sid, i).1 == i;
      }
    }
  }

  /** The loop of sys_free over the blocks of an arena: each is found and removed. */
  method RemoveEach(list: seq<nat>, a: nat, d: nat) returns (rest: seq<nat>)
    requires d < DESC_CNT && forall i: nat :: i < PerArena(d) ==> Block(a, d, i) in list
    ensures rest == Removed(list, a, d, PerArena(d))
  {
    rest := list;
    var i := 0;
    while i < PerArena(d)
      invariant 0 <= i <= PerArena(d) && rest == Removed(list, a, d, i)
    {
      RemovedHas(list, a, d, i, i);
      assert Block(a, d, i) in rest;               // ASSERT(elem_find(...))
      rest := Without(rest, Block(a, d, i));
      i := i + 1;
    }
  }

  /** The list after the first `n` blocks of an arena were removed from it. */
  ghost function Removed(list: seq<nat>, a: nat, d: nat, n: nat): seq<nat>
    requires d < DESC_CNT
  {
    if n == 0 then list else Without(Removed(list, a, d, n - 1), Block(a, d, n - 1))
  }

  lemma {:induction false} RemovedHas(list: seq<nat>, a: nat, d: nat, n: nat, i: nat)
    requires d < DESC_CNT && n <= i && Block(a, d, i) in list
    ensures Block(a, d, i) in Removed(list, a, d, n)
  {
    if n > 0 {
      RemovedHas(list, a, d, n - 1, i);
      BlocksApart(a, d, n - 1, i);
    }
  }

  /** Removing block by block is a filter. */
  lemma {:induction false} RemovedIs(list: seq<nat>, a: nat, d: nat, n: nat)
    requires d < DESC_CNT
    ensures Removed(list, a, d, n) == Kept(list, a, d, n)
  {
    if n == 0 {
      KeptAll(list, a, d);
    } else {
      RemovedIs(list, a, d, n - 1);
      KeptStep(list, a, d, n - 1);
    }
  }

  /** `b` is one of the first `n` blocks of the arena. */
  ghost predicate Among(b: nat, a: nat, d: nat, n: nat)
    requires d < DESC_CNT
  {
    exists i: nat :: i < n && b == Block(a, d, i)
  }

  ghost function Kept(list: seq<nat>, a: nat, d: nat, n: nat): seq<nat>
    requires d < DESC_CNT
  {
    if list == [] then [] else (if Among(list[0], a, d, n) then [] else [list[0]]) + Kept(list[1..], a, d, n)
  }

  lemma {:induction false} KeptAll(list: seq<nat>, a: nat, d: nat)
    requires d < DESC_CNT
    ensures Kept(list, a, d, 0) == list
  {
    if list != [] {
      KeptAll(list[1..], a, d);
    }
  }

  lemma {:induction false} KeptStep(list: seq<nat>, a: nat, d: nat, n: nat)
    requires d < DESC_CNT
    ensures Without(Kept(list, a, d, n), Block(a, d, n)) == Kept(list, a, d, n + 1)
  {
    if list != [] {
      KeptStep(list[1..], a, d, n);
      var b := list[0];
      assert Among(b, a, d, n + 1) <==> Among(b, a, d, n) || b == Block(a, d, n);
      var rest := Kept(list[1..], a, d, n);
      if Among(b, a, d, n) {
        assert [] + rest == rest && [] + Kept(list[1..], a, d, n + 1) == Kept(list[1..], a, d, n + 1);
      } else {
        assert ([b] + rest)[0] == b && ([b] + rest)[1..] == rest;
        assert [] + Kept(list[1..], a, d, n + 1) == Kept(list[1..], a, d, n + 1);
      }
    }
  }

  lemma {:induction false} KeptOutside(list: seq<nat>, a: nat, d: nat, n: nat)
    requires d < DESC_CNT && forall b :: b in list ==> (Among(b, a, d, n) <==> ArenaOf(b) == a)
    ensures Kept(list, a, d, n) == Outside(list, a)
  {
    if list != [] {
      KeptOutside(list[1..], a, d, n);
    }
  }

  lemma RemovedAll(h: Heap, d: nat, a: nat)
    requires Consistent(h) && a in h.arenas && d < DESC_CNT
    ensures Removed(h.frees[d], a, d, PerArena(d)) == Outside(h.frees[d], a)
  {
    RemovedIs(h.frees[d], a, d, PerArena(d));
    forall b | b in h.frees[d] ensures Among(b, a, d, PerArena(d)) <==> ArenaOf(b) == a {
      assert IsBlock(h.arenas, d, b);
      if ArenaOf(b) == a {
        var i :| 0 <= i < PerArena(d) && b == Block(ArenaOf(b), d, i);
      }
      if Among(b, a, d, PerArena(d)) {
        var i: nat :| i < PerArena(d) && b == Block(a, d, i);
        BlockInArena(a, d, i);
      }
    }
    KeptOutside(h.frees[d], a, d, PerArena(d));
  }
}
