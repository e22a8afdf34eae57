/** The arena level of src/kernel/memory.c: sys_malloc and sys_free carve pages into blocks
    of seven sizes, or hand out whole pages. */
module Arenas {
  import opened Machine

  const PG_SIZE := 4096
  const HEADER := 12      // sizeof(struct arena)
  const DESC_CNT := 7
  const MAX_SMALL := 1024

  /** block_desc_init: 16 bytes, doubled from one descriptor to the next */
  function BlockSize(d: nat): (r: nat)
    requires d < DESC_CNT
    ensures 16 <= r <= MAX_SMALL
  {
    if d == 0 then 16 else if d == 1 then 32 else if d == 2 then 64 else if d == 3 then 128
    else if d == 4 then 256 else if d == 5 then 512 else 1024
  }

  lemma BlockSizesDouble(d: nat)
    requires d + 1 < DESC_CNT
    ensures BlockSize(0) == 16 && BlockSize(d + 1) == 2 * BlockSize(d)
  {
  }

  /** As many blocks as fit behind the header */
  function PerArena(d: nat): (r: nat)
    requires d < DESC_CNT
    ensures r >= 3 && HEADER + r * BlockSize(d) <= PG_SIZE
  {
    (PG_SIZE - HEADER) / BlockSize(d)
  }

  /** One block more would not fit. */
  lemma ArenaIsFull(d: nat)
    requires d < DESC_CNT
    ensures HEADER + (PerArena(d) + 1) * BlockSize(d) > PG_SIZE
  {
  }

  /** The descriptor sys_malloc picks: the first whose blocks are large enough. */
  function DescFor(size: nat): (d: nat)
    requires 0 < size <= MAX_SMALL
    ensures d < DESC_CNT && size <= BlockSize(d) && (d > 0 ==> BlockSize(d - 1) < size)
  {
    if size <= 16 then 0 else if size <= 32 then 1 else if size <= 64 then 2 else if size <= 128 then 3
    else if size <= 256 then 4 else if size <= 512 then 5 else 6
  }

  /** The pages of a large request: DIV_ROUND_UP of the size and the header. */
  function LargePages(size: nat): (n: nat)
    ensures n >= 1 && size + HEADER <= n * PG_SIZE
    ensures size + HEADER > (n - 1) * PG_SIZE
  {
    (size + HEADER + PG_SIZE - 1) / PG_SIZE
  }

  /** arena2block: the address of block `i` of the arena in page `a` */
  function Block(a: nat, d: nat, i: nat): nat
    requires d < DESC_CNT
  {
    a * PG_SIZE + HEADER + i * BlockSize(d)
  }

  /** block2arena: the page a block lies in */
  function ArenaOf(b: nat): nat {
    b / PG_SIZE
  }

  lemma BlockFits(a: nat, d: nat, i: nat)
    requires d < DESC_CNT && i < PerArena(d)
    ensures a * PG_SIZE + HEADER <= Block(a, d, i) && Block(a, d, i) + BlockSize(d) <= (a + 1) * PG_SIZE
  {
    assert i * BlockSize(d) + BlockSize(d) <= PerArena(d) * BlockSize(d);
  }

  /** block2arena undoes arena2block. */
  lemma BlockInArena(a: nat, d: nat, i: nat)
    requires d < DESC_CNT && i < PerArena(d)
    ensures ArenaOf(Block(a, d, i)) == a
  {
    BlockFits(a, d, i);
  }

  /** Two blocks of one size are the same or apart. */
  lemma BlocksApart(a: nat, d: nat, i: nat, j: nat)
    requires d < DESC_CNT && i < j
    ensures Block(a, d, i) + BlockSize(d) <= Block(a, d, j)
  {
    assert (i + 1) * BlockSize(d) <= j * BlockSize(d);
  }

  // ----- the heap -----

  /** The header of an arena: `desc` and the free blocks, or the pages of a large one. */
  datatype Arena = Small(desc: nat, cnt: nat) | Large(pages: nat)

  /** `arenas` by page number, the free lists by descriptor; `live` records what was handed
      out and for which request. */
  datatype Heap = Heap(arenas: map<nat, Arena>, frees: seq<seq<nat>>, live: map<nat, nat>)

  function Extent(r: Arena): nat {
    match r
    case Small(_, _) => 1
    case Large(n) => n
  }

  /** `b` is a block of descriptor `d` in some arena. */
  ghost predicate IsBlock(arenas: map<nat, Arena>, d: nat, b: nat) {
    d < DESC_CNT && ArenaOf(b) in arenas && arenas[ArenaOf(b)].Small? && arenas[ArenaOf(b)].desc == d && HasIndex(d, b)
  }

  ghost predicate HasIndex(d: nat, b: nat)
    requires d < DESC_CNT
  {
    exists i :: 0 <= i < PerArena(d) && b == Block(ArenaOf(b), d, i)
  }

  ghost function FreeIn(a: nat, d: nat, free: seq<nat>): set<nat>
    requires d < DESC_CNT
  {
    set i: nat | i < PerArena(d) && Block(a, d, i) in free
  }

  ghost predicate FreesOk(h: Heap) {
    |h.frees| == DESC_CNT && forall d :: 0 <= d < DESC_CNT ==> Distinct(h.frees[d]) && forall b :: b in h.frees[d] ==> IsBlock(h.arenas, d, b)
  }

  /** A live block of a small arena is a block of it off the free list, large enough for the
      request; that of a large arena starts behind the header and fits its pages. */
  ghost predicate LiveOk(h: Heap, b: nat)
    requires |h.frees| == DESC_CNT && b in h.live
  {
    ArenaOf(b) in h.arenas &&
    match h.arenas[ArenaOf(b)]
    case Small(d, _) => d < DESC_CNT && HasIndex(d, b) && b !in h.frees[d] && h.live[b] <= BlockSize(d)
    case Large(n) => b == ArenaOf(b) * PG_SIZE + HEADER && h.live[b] + HEADER <= n * PG_SIZE
  }

  /** A small arena counts its free blocks, and a block that is not free is live; the block
      of a large arena is live. */
  ghost predicate ArenaOk(h: Heap, a: nat)
    requires |h.frees| == DESC_CNT && a in h.arenas
  {
    match h.arenas[a]
    case Small(d, cnt) =>
      d < DESC_CNT && cnt == |FreeIn(a, d, h.frees[d])| &&
      forall i :: 0 <= i < PerArena(d) && Block(a, d, i) !in h.frees[d] ==> Block(a, d, i) in h.live
    case Large(n) => n >= 1 && a * PG_SIZE + HEADER in h.live
  }

  ghost predicate ArenasApart(arenas: map<nat, Arena>) {
    forall a, b :: a in arenas && b in arenas && a < b ==> a + Extent(arenas[a]) <= b
  }

  ghost predicate Consistent(h: Heap) {
    FreesOk(h) && ArenasApart(h.arenas) &&
    (forall b :: b in h.live ==> LiveOk(h, b)) && (forall a :: a in h.arenas ==> ArenaOk(h, a))
  }

  /** No arena is entirely free: it would have been given back. */
  ghost predicate NoneIdle(h: Heap) {
    forall a :: a in h.arenas && h.arenas[a].Small? && h.arenas[a].desc < DESC_CNT ==> h.arenas[a].cnt < PerArena(h.arenas[a].desc)
  }

  ghost predicate Inv(h: Heap) {
    Consistent(h) && NoneIdle(h)
  }

  // ----- what it means for the callers -----

  lemma SameArenaDisjoint(a: nat, d: nat, b: nat, c: nat)
    requires d < DESC_CNT && HasIndex(d, b) && HasIndex(d, c) && ArenaOf(b) == a == ArenaOf(c) && b < c
    ensures b + BlockSize(d) <= c
  {
    var i :| 0 <= i < PerArena(d) && b == Block(a, d, i);
    var j :| 0 <= j < PerArena(d) && c == Block(a, d, j);
    assert i < j;
    BlocksApart(a, d, i, j);
  }

  /** Live blocks are pairwise disjoint. */
  lemma LiveDisjoint(h: Heap, b: nat, c: nat)
    requires Consistent(h) && b in h.live && c in h.live && b < c
    ensures b + h.live[b] <= c
  {
    var a := ArenaOf(b);
    assert LiveOk(h, b) && LiveOk(h, c);
    if a == ArenaOf(c) {
      if h.arenas[a].Small? { SameArenaDisjoint(a, h.arenas[a].desc, b, c); }
    } else {
      LiveInside(h, b);
      ArenaEnd(h.arenas, a, ArenaOf(c));
    }
  }

  lemma ArenaEnd(arenas: map<nat, Arena>, a: nat, x: nat)
    requires ArenasApart(arenas) && a in arenas && x in arenas && a < x
    ensures (a + Extent(arenas[a])) * PG_SIZE <= x * PG_SIZE
  {
  }

  /** A live block lies in its arena's pages, behind the header. */
  lemma LiveInside(h: Heap, b: nat)
    requires Consistent(h) && b in h.live
    ensures ArenaOf(b) in h.arenas
    ensures ArenaOf(b) * PG_SIZE + HEADER <= b && b + h.live[b] <= (ArenaOf(b) + Extent(h.arenas[ArenaOf(b)])) * PG_SIZE
  {
    assert LiveOk(h, b);
    var a := ArenaOf(b);
    if h.arenas[a].Small? {
      var d := h.arenas[a].desc;
      var i :| 0 <= i < PerArena(d) && b == Block(a, d, i);
      BlockFits(a, d, i);
    }
  }

  /** A live block misses the header of every arena. */
  lemma LiveMissesHeaders(h: Heap, b: nat, a: nat)
    requires Consistent(h) && b in h.live && a in h.arenas
    ensures b + h.live[b] <= a * PG_SIZE || a * PG_SIZE + HEADER <= b
  {
    LiveInside(h, b);
    var x := ArenaOf(b);
    if x < a { ArenaEnd(h.arenas, x, a); }
  }

  // ----- transitions -----

  /** All blocks of an arena, in order. */
  function Blocks(a: nat, d: nat): (r: seq<nat>)
    requires d < DESC_CNT
    ensures |r| == PerArena(d) && forall i :: 0 <= i < |r| ==> r[i] == Block(a, d, i)
  {
    seq(PerArena(d), i requires 0 <= i < PerArena(d) => Block(a, d, i))
  }

  /** Pages `a .. a + n` belong to no arena. */
  ghost predicate FreshPages(arenas: map<nat, Arena>, a: nat, n: nat) {
    forall x :: x in arenas ==> x + Extent(arenas[x]) <= a || a + n <= x
  }

  /** A new page becomes an arena and all its blocks go to the tail of the free list. */
  function NewArena(h: Heap, d: nat, a: nat): Heap
    requires |h.frees| == DESC_CNT && d < DESC_CNT
  {
    h.(arenas := h.arenas[a := Small(d, PerArena(d))], frees := h.frees[d := h.frees[d] + Blocks(a, d)])
  }

  /** The head of a free list is handed out. */
  function PopBlock(h: Heap, d: nat, size: nat): Heap
    requires |h.frees| == DESC_CNT && d < DESC_CNT && h.frees[d] != [] && ArenaOf(h.frees[d][0]) in h.arenas
    requires h.arenas[ArenaOf(h.frees[d][0])].Small? && h.arenas[ArenaOf(h.frees[d][0])].cnt > 0
  {
    var b := h.frees[d][0];
    var r := h.arenas[ArenaOf(b)];
    Heap(h.arenas[ArenaOf(b) := r.(cnt := r.cnt - 1)], h.frees[d := h.frees[d][1..]], h.live[b := size])
  }

  /** Whole pages are handed out. */
  function NewLarge(h: Heap, a: nat, size: nat): Heap {
    h.(arenas := h.arenas[a := Large(LargePages(size))], live := h.live[a * PG_SIZE + HEADER := size])
  }

  /** A block goes back to the tail of its free list. */
  function PushBlock(h: Heap, b: nat): Heap
    requires |h.frees| == DESC_CNT && ArenaOf(b) in h.arenas && h.arenas[ArenaOf(b)].Small? && h.arenas[ArenaOf(b)].desc < DESC_CNT
  {
    var r := h.arenas[ArenaOf(b)];
    Heap(h.arenas[ArenaOf(b) := r.(cnt := r.cnt + 1)], h.frees[r.desc := h.frees[r.desc] + [b]], h.live - {b})
  }

  /** The list without the blocks of arena `a`, order kept. */
  function Outside(free: seq<nat>, a: nat): (r: seq<nat>)
    ensures forall b :: b in r <==> b in free && ArenaOf(b) != a
  {
    if free == [] then []
    else
      var rest := Outside(free[1..], a);
      assert free == [free[0]] + free[1..];
      if ArenaOf(free[0]) == a then rest else [free[0]] + rest
  }

  lemma {:induction false} OutsideDistinct(free: seq<nat>, a: nat)
    requires Distinct(free)
    ensures Distinct(Outside(free, a))
  {
    if free != [] {
      OutsideDistinct(free[1..], a);
      DistinctPop(free);
      if ArenaOf(free[0]) != a { DistinctPush(Outside(free[1..], a), free[0]); }
    }
  }

  /** A wholly free arena leaves the free list and its page is given back. */
  function DropArena(h: Heap, a: nat): Heap
    requires |h.frees| == DESC_CNT && a in h.arenas && h.arenas[a].Small? && h.arenas[a].desc < DESC_CNT
  {
    var d := h.arenas[a].desc;
    h.(arenas := h.arenas - {a}, frees := h.frees[d := Outside(h.frees[d], a)])
  }

  function DropLarge(h: Heap, b: nat): Heap {
    h.(arenas := h.arenas - {ArenaOf(b)}, live := h.live - {b})
  }

  // ----- preservation -----

  /** The numbers below `n`. */
  ghost function Below(n: nat): (r: set<nat>)
    ensures |r| == n && forall i: nat :: i in r <==> i < n
  {
    if n == 0 then {} else Below(n - 1) + {n - 1}
  }

  lemma BlocksDistinct(a: nat, d: nat)
    requires d < DESC_CNT
    ensures Distinct(Blocks(a, d)) && (forall b :: b in Blocks(a, d) ==> ArenaOf(b) == a && HasIndex(d, b))
  {
    forall i, j | 0 <= i < j < PerArena(d) ensures Blocks(a, d)[i] != Blocks(a, d)[j] {
      BlocksApart(a, d, i, j);
    }
    forall b | b in Blocks(a, d) ensures ArenaOf(b) == a && HasIndex(d, b) {
      var i :| 0 <= i < PerArena(d) && Blocks(a, d)[i] == b;
      BlockInArena(a, d, i);
    }
  }

  lemma DistinctConcat(s: seq<nat>, t: seq<nat>)
    requires Distinct(s) && Distinct(t) && forall x :: x in s ==> x !in t
    ensures Distinct(s + t)
  {
    forall i, j | 0 <= i < j < |s + t| ensures (s + t)[i] != (s + t)[j] {
      if i < |s| <= j { assert (s + t)[i] in s && (s + t)[j] in t; }
    }
  }

  /** The free blocks of arena `x` are the same in two lists that differ elsewhere only. */
  lemma FreeInSame(x: nat, d: nat, free: seq<nat>, free': seq<nat>)
    requires d < DESC_CNT && forall b :: ArenaOf(b) == x ==> (b in free <==> b in free')
    ensures FreeIn(x, d, free) == FreeIn(x, d, free')
  {
    forall i: nat | i < PerArena(d) ensures Block(x, d, i) in free <==> Block(x, d, i) in free' {
      BlockInArena(x, d, i);
    }
  }

  /** An arena none of whose blocks changed place. */
  lemma ArenaKept(h: Heap, h': Heap, x: nat)
    requires |h.frees| == DESC_CNT == |h'.frees| && x in h.arenas && x in h'.arenas && h'.arenas[x] == h.arenas[x] && ArenaOk(h, x)
    requires forall d, b :: 0 <= d < DESC_CNT && ArenaOf(b) == x ==> (b in h.frees[d] <==> b in h'.frees[d])
    requires forall b :: ArenaOf(b) == x && b in h.live ==> b in h'.live
    ensures ArenaOk(h', x)
  {
    if h.arenas[x].Small? {
      var d := h.arenas[x].desc;
      FreeInSame(x, d, h.frees[d], h'.frees[d]);
      forall i | 0 <= i < PerArena(d) && Block(x, d, i) !in h'.frees[d] ensures Block(x, d, i) in h'.live {
        BlockInArena(x, d, i);
      }
    }
  }

  lemma NewArenaFrees(h: Heap, d: nat, a: nat)
    requires FreesOk(h) && d < DESC_CNT && a !in h.arenas
    ensures FreesOk(NewArena(h, d, a))
  {
    var h' := NewArena(h, d, a);
    BlocksDistinct(a, d);
    DistinctConcat(h.frees[d], Blocks(a, d));
    forall e, b | 0 <= e < DESC_CNT && b in h'.frees[e] ensures IsBlock(h'.arenas, e, b) {
      assert b in h.frees[e] ==> IsBlock(h.arenas, e, b);
    }
  }

  lemma NewArenaArenas(h: Heap, d: nat, a: nat)
    requires Consistent(h) && d < DESC_CNT && a !in h.arenas
    ensures forall x :: x in NewArena(h, d, a).arenas ==> ArenaOk(NewArena(h, d, a), x)
  {
    var h' := NewArena(h, d, a);
    BlocksDistinct(a, d);
    forall x | x in h'.arenas ensures ArenaOk(h', x) {
      if x == a {
        assert forall i: nat :: i < PerArena(d) ==> Blocks(a, d)[i] in h'.frees[d];
        assert FreeIn(a, d, h'.frees[d]) == Below(PerArena(d));
      } else {
        ArenaKept(h, h', x);
      }
    }
  }

  lemma NewArenaLive(h: Heap, d: nat, a: nat)
    requires Consistent(h) && d < DESC_CNT && a !in h.arenas
    ensures forall b :: b in h.live ==> LiveOk(NewArena(h, d, a), b)
  {
    BlocksDistinct(a, d);
    forall b | b in h.live ensures LiveOk(NewArena(h, d, a), b) {
      assert LiveOk(h, b);
    }
  }

  lemma NewArenaConsistent(h: Heap, d: nat, a: nat)
    requires Consistent(h) && d < DESC_CNT && FreshPages(h.arenas, a, 1) && a !in h.arenas
    ensures Consistent(NewArena(h, d, a))
  {
    NewArenaFrees(h, d, a);
    NewArenaLive(h, d, a);
    NewArenaArenas(h, d, a);
  }

  lemma PopFree(h: Heap, d: nat, b: nat, i: nat)
    requires d < DESC_CNT && |h.frees| == DESC_CNT && Distinct(h.frees[d]) && h.frees[d] != [] && b == h.frees[d][0]
    requires i < PerArena(d) && b == Block(ArenaOf(b), d, i)
    ensures FreeIn(ArenaOf(b), d, h.frees[d][1..]) == FreeIn(ArenaOf(b), d, h.frees[d]) - {i}
    ensures i in FreeIn(ArenaOf(b), d, h.frees[d])
  {
    DistinctPop(h.frees[d]);
    forall j: nat | j < PerArena(d) && Block(ArenaOf(b), d, j) == b ensures j == i {
      if j < i { BlocksApart(ArenaOf(b), d, j, i); }
      if i < j { BlocksApart(ArenaOf(b), d, i, j); }
    }
  }

  lemma PopPossible(h: Heap, d: nat)
    requires Consistent(h) && d < DESC_CNT && h.frees[d] != []
    ensures var b := h.frees[d][0];
      IsBlock(h.arenas, d, b) && h.arenas[ArenaOf(b)].cnt > 0
  {
    var b := h.frees[d][0];
    assert b in h.frees[d];
    assert IsBlock(h.arenas, d, b);
    assert ArenaOk(h, ArenaOf(b));
    var i :| 0 <= i < PerArena(d) && b == Block(ArenaOf(b), d, i);
    PopFree(h, d, b, i);
  }

  lemma PopArenas(h: Heap, d: nat, size: nat)
    requires Consistent(h) && d < DESC_CNT && h.frees[d] != [] && PopRequires(h, d)
    ensures forall x :: x in PopBlock(h, d, size).arenas ==> ArenaOk(PopBlock(h, d, size), x)
  {
    var b := h.frees[d][0];
    var a := ArenaOf(b);
    var h' := PopBlock(h, d, size);
    assert IsBlock(h.arenas, d, b);
    var i :| 0 <= i < PerArena(d) && b == Block(a, d, i);
    PopFree(h, d, b, i);
    DistinctPop(h.frees[d]);
    forall x | x in h'.arenas ensures ArenaOk(h', x) {
      assert ArenaOk(h, x);
      if x != a {
        ArenaKept(h, h', x);
      } else {
        forall j | 0 <= j < PerArena(d) && Block(a, d, j) !in h'.frees[d] ensures Block(a, d, j) in h'.live {
          assert Block(a, d, j) != b ==> Block(a, d, j) !in h.frees[d];
        }
      }
    }
  }

  predicate PopRequires(h: Heap, d: nat) {
    |h.frees| == DESC_CNT && d < DESC_CNT && h.frees[d] != [] && ArenaOf(h.frees[d][0]) in h.arenas &&
    h.arenas[ArenaOf(h.frees[d][0])].Small? && h.arenas[ArenaOf(h.frees[d][0])].cnt > 0
  }

  lemma PopConsistent(h: Heap, d: nat, size: nat)
    requires Consistent(h) && d < DESC_CNT && h.frees[d] != [] && 0 < size <= BlockSize(d)
    ensures PopRequires(h, d) && Consistent(PopBlock(h, d, size)) && h.frees[d][0] !in h.live
  {
    PopPossible(h, d);
    var b := h.frees[d][0];
    var h' := PopBlock(h, d, size);
    DistinctPop(h.frees[d]);
    assert b in h.live ==> LiveOk(h, b);
    forall c | c in h'.live ensures LiveOk(h', c) {
      if c != b { assert LiveOk(h, c); }
    }
    forall e, c | 0 <= e < DESC_CNT && c in h'.frees[e] ensures IsBlock(h'.arenas, e, c) {
      assert c in h.frees[e];
      assert IsBlock(h.arenas, e, c);
    }
    PopArenas(h, d, size);
  }

  lemma NewLargeLive(h: Heap, a: nat, size: nat)
    requires Consistent(h) && a !in h.arenas
    ensures var b := a * PG_SIZE + HEADER; b !in h.live && ArenaOf(b) == a
    ensures forall b :: b in NewLarge(h, a, size).live ==> LiveOk(NewLarge(h, a, size), b)
  {
    var b := a * PG_SIZE + HEADER;
    var h' := NewLarge(h, a, size);
    assert ArenaOf(b) == a;
    assert b in h.live ==> LiveOk(h, b);
    forall c | c in h'.live ensures LiveOk(h', c) {
      if c != b { assert LiveOk(h, c); }
    }
  }

  lemma NewLargeArenas(h: Heap, a: nat, size: nat)
    requires Consistent(h) && a !in h.arenas
    ensures forall x :: x in NewLarge(h, a, size).arenas ==> ArenaOk(NewLarge(h, a, size), x)
    ensures FreesOk(NewLarge(h, a, size))
  {
    var h' := NewLarge(h, a, size);
    forall e, c | 0 <= e < DESC_CNT && c in h'.frees[e] ensures IsBlock(h'.arenas, e, c) {
      assert IsBlock(h.arenas, e, c);
    }
    forall x | x in h'.arenas ensures ArenaOk(h', x) {
      if x != a { ArenaKept(h, h', x); }
    }
  }

  lemma NewLargeConsistent(h: Heap, a: nat, size: nat)
    requires Consistent(h) && FreshPages(h.arenas, a, LargePages(size)) && a !in h.arenas
    ensures Consistent(NewLarge(h, a, size)) && a * PG_SIZE + HEADER !in h.live
  {
    NewLargeLive(h, a, size);
    NewLargeArenas(h, a, size);
  }

  // ----- freeing -----

  lemma PushFree(d: nat, b: nat, i: nat, free: seq<nat>)
    requires d < DESC_CNT && i < PerArena(d) && b == Block(ArenaOf(b), d, i) && b !in free
    ensures FreeIn(ArenaOf(b), d, free + [b]) == FreeIn(ArenaOf(b), d, free) + {i} && i !in FreeIn(ArenaOf(b), d, free)
  {
    forall j: nat | j < PerArena(d) && Block(ArenaOf(b), d, j) == b ensures j == i {
      if j < i { BlocksApart(ArenaOf(b), d, j, i); }
      if i < j { BlocksApart(ArenaOf(b), d, i, j); }
    }
  }

  ghost predicate LiveSmall(h: Heap, b: nat) {
    |h.frees| == DESC_CNT && b in h.live && ArenaOf(b) in h.arenas && h.arenas[ArenaOf(b)].Small? && h.arenas[ArenaOf(b)].desc < DESC_CNT
  }

  lemma PushArenas(h: Heap, b: nat)
    requires Consistent(h) && LiveSmall(h, b)
    ensures forall x :: x in PushBlock(h, b).arenas ==> ArenaOk(PushBlock(h, b), x)
  {
    var a := ArenaOf(b);
    var d := h.arenas[a].desc;
    var h' := PushBlock(h, b);
    assert LiveOk(h, b);
    var i :| 0 <= i < PerArena(d) && b == Block(a, d, i);
    PushFree(d, b, i, h.frees[d]);
    forall x | x in h'.arenas ensures ArenaOk(h', x) {
      assert ArenaOk(h, x);
      if x != a { ArenaKept(h, h', x); }
    }
  }

  lemma PushFrees(h: Heap, b: nat)
    requires Consistent(h) && LiveSmall(h, b)
    ensures FreesOk(PushBlock(h, b))
  {
    var h' := PushBlock(h, b);
    assert LiveOk(h, b);
    DistinctAppend(h.frees[h.arenas[ArenaOf(b)].desc], b);
    forall e, c | 0 <= e < DESC_CNT && c in h'.frees[e] ensures IsBlock(h'.arenas, e, c) {
      assert c in h.frees[e] ==> IsBlock(h.arenas, e, c);
    }
  }

  lemma PushLive(h: Heap, b: nat)
    requires Consistent(h) && LiveSmall(h, b)
    ensures forall c :: c in PushBlock(h, b).live ==> LiveOk(PushBlock(h, b), c)
  {
    var h' := PushBlock(h, b);
    forall c | c in h'.live ensures LiveOk(h', c) {
      assert LiveOk(h, c);
    }
  }

  lemma PushConsistent(h: Heap, b: nat)
    requires Consistent(h) && LiveSmall(h, b)
    ensures Consistent(PushBlock(h, b))
  {
    PushArenas(h, b);
    PushFrees(h, b);
    PushLive(h, b);
  }

  lemma FullBelow(f: set<nat>, n: nat, i: nat)
    requires |f| == n && i < n && forall j :: j in f ==> j < n
    ensures i in f
  {
    assert f + {i} <= Below(n);
    assert |Below(n) - (f + {i})| + |f + {i}| == n;
  }

  /** All blocks of an arena that counts as many free blocks as it has are on the list. */
  lemma AllFree(h: Heap, a: nat, i: nat)
    requires Consistent(h) && a in h.arenas && h.arenas[a].Small? && h.arenas[a].desc < DESC_CNT
    requires h.arenas[a].cnt == PerArena(h.arenas[a].desc) && i < PerArena(h.arenas[a].desc)
    ensures Block(a, h.arenas[a].desc, i) in h.frees[h.arenas[a].desc]
  {
    var d := h.arenas[a].desc;
    assert ArenaOk(h, a);
    FullBelow(FreeIn(a, d, h.frees[d]), PerArena(d), i);
  }

  lemma NothingLiveIn(h: Heap, a: nat, b: nat)
    requires Consistent(h) && a in h.arenas && h.arenas[a].Small? && h.arenas[a].desc < DESC_CNT
    requires h.arenas[a].cnt == PerArena(h.arenas[a].desc) && b in h.live
    ensures ArenaOf(b) != a
  {
    var d := h.arenas[a].desc;
    assert LiveOk(h, b);
    if ArenaOf(b) == a {
      var i :| 0 <= i < PerArena(d) && b == Block(a, d, i);
      AllFree(h, a, i);
    }
  }

  lemma DropFrees(h: Heap, a: nat)
    requires FreesOk(h) && a in h.arenas && h.arenas[a].Small? && h.arenas[a].desc < DESC_CNT
    ensures FreesOk(DropArena(h, a))
  {
    var h' := DropArena(h, a);
    OutsideDistinct(h.frees[h.arenas[a].desc], a);
    forall e, c | 0 <= e < DESC_CNT && c in h'.frees[e] ensures IsBlock(h'.arenas, e, c) {
      assert IsBlock(h.arenas, e, c);
    }
  }

  lemma DropLive(h: Heap, a: nat)
    requires Consistent(h) && a in h.arenas && h.arenas[a].Small? && h.arenas[a].desc < DESC_CNT
    requires h.arenas[a].cnt == PerArena(h.arenas[a].desc)
    ensures forall c :: c in DropArena(h, a).live ==> LiveOk(DropArena(h, a), c)
  {
    forall c | c in h.live ensures LiveOk(DropArena(h, a), c) {
      NothingLiveIn(h, a, c);
      assert LiveOk(h, c);
    }
  }

  lemma DropConsistent(h: Heap, a: nat)
    requires Consistent(h) && a in h.arenas && h.arenas[a].Small? && h.arenas[a].desc < DESC_CNT
    requires h.arenas[a].cnt == PerArena(h.arenas[a].desc)
    ensures Consistent(DropArena(h, a))
  {
    DropFrees(h, a);
    DropLive(h, a);
    forall x | x in DropArena(h, a).arenas ensures ArenaOk(DropArena(h, a), x) {
      ArenaKept(h, DropArena(h, a), x);
    }
  }

  lemma DropLargeArenas(h: Heap, b: nat)
    requires Consistent(h) && b in h.live && ArenaOf(b) in h.arenas
    ensures forall x :: x in DropLarge(h, b).arenas ==> ArenaOk(DropLarge(h, b), x)
  {
    forall x | x in DropLarge(h, b).arenas ensures ArenaOk(DropLarge(h, b), x) {
      ArenaKept(h, DropLarge(h, b), x);
    }
  }

  lemma DropLargeLive(h: Heap, b: nat, c: nat)
    requires |h.frees| == DESC_CNT && b in h.live && c in h.live && c != b && LiveOk(h, b) && LiveOk(h, c)
    requires h.arenas[ArenaOf(b)].Large?
    ensures LiveOk(DropLarge(h, b), c)
  {
    assert ArenaOf(c) != ArenaOf(b);
  }

  lemma DropLargeConsistent(h: Heap, b: nat)
    requires Consistent(h) && b in h.live && ArenaOf(b) in h.arenas && h.arenas[ArenaOf(b)].Large?
    ensures Consistent(DropLarge(h, b))
  {
    var h' := DropLarge(h, b);
    forall e, c | 0 <= e < DESC_CNT && c in h'.frees[e] ensures IsBlock(h'.arenas, e, c) {
      assert IsBlock(h.arenas, e, c);
    }
    forall c | c in h'.live ensures LiveOk(h', c) {
      DropLargeLive(h, b, c);
    }
    DropLargeArenas(h, b);
  }

  // ----- sys_malloc and sys_free -----

  /** How many pages a request takes from malloc_page, if it has to. */
  function PagesFor(size: nat): nat {
    if size > MAX_SMALL then LargePages(size) else 1
  }

  predicate NeedsPages(h: Heap, poolSize: nat, size: nat)
    requires |h.frees| == DESC_CNT
  {
    0 < size < poolSize && (size > MAX_SMALL || h.frees[DescFor(size)] == [])
  }

  /** `page` is a possible answer of malloc_page: pages that no arena has. */
  ghost predicate PageOk(h: Heap, poolSize: nat, size: nat, page: Option<nat>)
    requires |h.frees| == DESC_CNT
  {
    NeedsPages(h, poolSize, size) && page.Some? ==> FreshPages(h.arenas, page.value, PagesFor(size)) && page.value !in h.arenas
  }

  /** sys_malloc. `page` is what malloc_page answers when it is asked, None for NULL. */
  ghost function Malloc(h: Heap, poolSize: nat, size: nat, page: Option<nat>): (r: (Option<nat>, Heap))
    requires Inv(h) && PageOk(h, poolSize, size, page)
    ensures Inv(r.1)
    ensures r.0 == None ==> r.1 == h
    ensures r.0.Some? ==> 0 < size && r.0.value !in h.live && r.1.live == h.live[r.0.value := size]
    ensures r.0 == None <==> !(0 < size < poolSize) || (NeedsPages(h, poolSize, size) && page == None)
  {
    if !(0 < size < poolSize) then (None, h)
    else if size > MAX_SMALL then
      if page == None then (None, h)
      else
        LargeStep(h, page.value, size);
        (Some(page.value * PG_SIZE + HEADER), NewLarge(h, page.value, size))
    else
      var d := DescFor(size);
      if h.frees[d] != [] then
        PopStep(h, d, size);
        (Some(h.frees[d][0]), PopBlock(h, d, size))
      else if page == None then (None, h)
      else
        var h1 := NewArena(h, d, page.value);
        NewArenaStep(h, d, page.value, size);
        (Some(h1.frees[d][0]), PopBlock(h1, d, size))
  }

  lemma LargeStep(h: Heap, a: nat, size: nat)
    requires Inv(h) && size > MAX_SMALL && FreshPages(h.arenas, a, LargePages(size)) && a !in h.arenas
    ensures var h' := NewLarge(h, a, size); Inv(h') && h'.live == h.live[a * PG_SIZE + HEADER := size] && a * PG_SIZE + HEADER !in h.live
  {
    NewLargeConsistent(h, a, size);
  }

  lemma PopStep(h: Heap, d: nat, size: nat)
    requires Inv(h) && 0 < size <= MAX_SMALL && d == DescFor(size) && h.frees[d] != []
    ensures PopRequires(h, d)
    ensures var h' := PopBlock(h, d, size); Inv(h') && h'.live == h.live[h.frees[d][0] := size] && h.frees[d][0] !in h.live
  {
    PopConsistent(h, d, size);
    PopNoneIdle(h, d, size);
  }

  lemma NewArenaStep(h: Heap, d: nat, a: nat, size: nat)
    requires Inv(h) && 0 < size <= MAX_SMALL && d == DescFor(size) && h.frees[d] == [] && FreshPages(h.arenas, a, 1) && a !in h.arenas
    ensures var h1 := NewArena(h, d, a);
      && PopRequires(h1, d) && Inv(PopBlock(h1, d, size)) && h1.frees[d][0] !in h.live
      && PopBlock(h1, d, size).live == h.live[h1.frees[d][0] := size]
  {
    NewArenaConsistent(h, d, a);
    var h1 := NewArena(h, d, a);
    assert h1.frees[d] == Blocks(a, d);
    PopConsistent(h1, d, size);
    BlockInArena(a, d, 0);
    PopNewNoneIdle(h, d, a, size);
  }

  /** A large request, when malloc_page answers `page` */
  lemma MallocIsLarge(h: Heap, poolSize: nat, size: nat, page: Option<nat>)
    requires Inv(h) && MAX_SMALL < size < poolSize && PageOk(h, poolSize, size, page)
    ensures page == None ==> Malloc(h, poolSize, size, page) == (None, h)
    ensures page.Some? ==> Malloc(h, poolSize, size, page) == (Some(page.value * PG_SIZE + HEADER), NewLarge(h, page.value, size))
    ensures Inv(Malloc(h, poolSize, size, page).1)
  {
  }

  lemma PopNoneIdle(h: Heap, d: nat, size: nat)
    requires NoneIdle(h) && PopRequires(h, d)
    ensures NoneIdle(PopBlock(h, d, size))
  {
  }

  lemma PopNewNoneIdle(h: Heap, d: nat, a: nat, size: nat)
    requires NoneIdle(h) && |h.frees| == DESC_CNT && d < DESC_CNT && h.frees[d] == [] && a !in h.arenas
    requires PopRequires(NewArena(h, d, a), d)
    ensures NoneIdle(PopBlock(NewArena(h, d, a), d, size))
  {
    assert NewArena(h, d, a).frees[d] == Blocks(a, d);
    BlockInArena(a, d, 0);
  }

  /** sys_free of a block that was handed out and not yet freed. */
  ghost function Free(h: Heap, b: nat): (h': Heap)
    requires Inv(h) && b in h.live
    ensures Inv(h') && h'.live == h.live - {b}
  {
    assert LiveOk(h, b);
    var a := ArenaOf(b);
    if h.arenas[a].Large? then
      DropLargeConsistent(h, b);
      DropLarge(h, b)
    else
      PushConsistent(h, b);
      var h1 := PushBlock(h, b);
      if h1.arenas[a].cnt == PerArena(h1.arenas[a].desc) then
        DropConsistent(h1, a);
        DropArena(h1, a)
      else
        PushNoneIdle(h, b);
        h1
  }

  /** The three ways of sys_free */
  lemma FreeIs(h: Heap, b: nat)
    requires Inv(h) && b in h.live
    ensures ArenaOf(b) in h.arenas && |h.frees| == DESC_CNT && ArenasApart(h.arenas)
    ensures h.arenas[ArenaOf(b)].Large? ==> h.arenas[ArenaOf(b)].pages >= 1 && Free(h, b) == DropLarge(h, b)
    ensures h.arenas[ArenaOf(b)].Small? ==> LiveSmall(h, b) && var h1 := PushBlock(h, b); var a := ArenaOf(b);
      Free(h, b) == if h1.arenas[a].cnt == PerArena(h1.arenas[a].desc) then DropArena(h1, a) else h1
    ensures forall a :: a in h.arenas && a !in Free(h, b).arenas ==> a == ArenaOf(b)
  {
    assert LiveOk(h, b) && ArenaOk(h, ArenaOf(b));
  }

  lemma PushNoneIdle(h: Heap, b: nat)
    requires Inv(h) && LiveSmall(h, b) && h.arenas[ArenaOf(b)].cnt + 1 != PerArena(h.arenas[ArenaOf(b)].desc)
    ensures NoneIdle(PushBlock(h, b))
  {
    assert h.arenas[ArenaOf(b)].cnt < PerArena(h.arenas[ArenaOf(b)].desc);
  }

  /** An arena is given back exactly when its last live block returns; then no block of it
      is left on the free list. */
  lemma LastBlockReturns(h: Heap, b: nat)
    requires Inv(h) && b in h.live
    ensures var a := ArenaOf(b); var h' := Free(h, b);
      && (a !in h'.arenas <==> forall c :: c in h'.live ==> ArenaOf(c) != a)
      && (a !in h'.arenas ==> forall d, c :: 0 <= d < DESC_CNT && c in h'.frees[d] ==> ArenaOf(c) != a)
  {
    var a := ArenaOf(b);
    var h' := Free(h, b);
    if a !in h'.arenas {
      forall c | c in h'.live ensures ArenaOf(c) != a { assert LiveOk(h', c); }
      forall d, c | 0 <= d < DESC_CNT && c in h'.frees[d] ensures ArenaOf(c) != a { assert IsBlock(h'.arenas, d, c); }
    } else {
      SomeLive(h', a);
    }
  }

  /** An arena that is kept has a live block. */
  lemma SomeLive(h: Heap, a: nat)
    requires Inv(h) && a in h.arenas
    ensures exists c :: c in h.live && ArenaOf(c) == a
  {
    assert ArenaOk(h, a);
    if h.arenas[a].Small? {
      var d := h.arenas[a].desc;
      var f := FreeIn(a, d, h.frees[d]);
      assert f <= Below(PerArena(d));
      assert |Below(PerArena(d)) - f| == PerArena(d) - |f|;
      var i :| i in Below(PerArena(d)) - f;
      BlockInArena(a, d, i);
      assert Block(a, d, i) in h.live;
    } else {
      assert ArenaOf(a * PG_SIZE + HEADER) == a;
    }
  }

  // ----- runs -----

  datatype Step = MallocStep(size: nat, page: Option<nat>) | FreeStep(b: nat)

  ghost predicate StepTo(h: Heap, poolSize: nat, step: Step, h': Heap)
    requires Inv(h)
  {
    match step
    case MallocStep(size, page) =>
      PageOk(h, poolSize, size, page) && h' == Malloc(h, poolSize, size, page).1
    case FreeStep(b) => b in h.live && h' == Free(h, b)
  }

  ghost predicate IsRun(trace: seq<Heap>, poolSize: nat, steps: seq<Step>) {
    |trace| == |steps| + 1 && trace[0] == Heap(map[], seq(DESC_CNT, _ => []), map[]) &&
    forall i :: 0 <= i < |steps| ==> Inv(trace[i]) ==> StepTo(trace[i], poolSize, steps[i], trace[i + 1])
  }

  lemma {:induction false} RunInv(trace: seq<Heap>, poolSize: nat, steps: seq<Step>, i: nat)
    requires IsRun(trace, poolSize, steps) && i < |trace|
    ensures Inv(trace[i])
  {
    if i > 0 {
      RunInv(trace, poolSize, steps, i - 1);
      assert StepTo(trace[i - 1], poolSize, steps[i - 1], trace[i - 1 + 1]);
    }
  }

  /** After any sequence of sys_malloc and valid sys_free calls, the blocks handed out are
      pairwise disjoint, lie inside their arenas and miss every arena header, and each small
      arena's count is the number of its blocks on the free list. */
  lemma RunsAreSafe(trace: seq<Heap>, poolSize: nat, steps: seq<Step>, i: nat)
    requires IsRun(trace, poolSize, steps) && i < |trace|
    ensures |trace[i].frees| == DESC_CNT
    ensures forall b, c :: b in trace[i].live && c in trace[i].live && b < c ==> b + trace[i].live[b] <= c
    ensures forall b, a :: b in trace[i].live && a in trace[i].arenas ==> b + trace[i].live[b] <= a * PG_SIZE || a * PG_SIZE + HEADER <= b
    ensures forall a :: a in trace[i].arenas && trace[i].arenas[a].Small? ==> CountOk(trace[i], a)
  {
    RunInv(trace, poolSize, steps, i);
    forall b, c | b in trace[i].live && c in trace[i].live && b < c ensures b + trace[i].live[b] <= c {
      LiveDisjoint(trace[i], b, c);
    }
    forall b, a | b in trace[i].live && a in trace[i].arenas ensures b + trace[i].live[b] <= a * PG_SIZE || a * PG_SIZE + HEADER <= b {
      LiveMissesHeaders(trace[i], b, a);
    }
    forall a | a in trace[i].arenas && trace[i].arenas[a].Small? ensures CountOk(trace[i], a) {
      assert ArenaOk(trace[i], a);
    }
  }

  ghost predicate CountOk(h: Heap, a: nat)
    requires |h.frees| == DESC_CNT && a in h.arenas && h.arenas[a].Small?
  {
    h.arenas[a].desc < DESC_CNT && h.arenas[a].cnt == |FreeIn(a, h.arenas[a].desc, h.frees[h.arenas[a].desc])|
  }
}
