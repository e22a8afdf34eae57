/** Regular files: src/fs/file.c and the release of src/fs/inode.c. A file is a sequence of bytes
    that lies in blocks of the disk, found through 12 direct entries and one indirect table. */
module Files {
  import opened Machine
  import opened Sectors
  import Bitmap

  const MAX_BLOCKS: nat := 140

  /** file_read refuses block indices from here on. */
  const READ_LIMIT: nat := 139

  // ----- where a file lies -----

  /** Entry `i` of a table that holds `blocks` and zeros behind them. */
  function At(blocks: seq<nat>, i: nat): nat {
    if i < |blocks| then blocks[i] else 0
  }

  /** The block is allocated, in the data area and behind the root directory's block. */
  predicate Used(ds: nat, n: nat, bits: seq<bool>, lba: nat) {
    ds < lba < n && lba < ds + |bits| && bits[lba - ds]
  }

  predicate Free(ds: nat, n: nat, bits: seq<bool>, lba: nat) {
    ds < lba < n && lba < ds + |bits| && !bits[lba - ds]
  }

  /** Bit 0 belongs to the root directory; bits without a sector are set for good. */
  ghost predicate Geometry(ds: nat, n: nat, bits: seq<bool>) {
    0 < n <= U32 && |bits| > 0 && bits[0] && forall i :: 0 <= i < |bits| && !bits[i] ==> ds + i < n
  }

  /** The data blocks of a file and its indirect table. */
  function Owned(table: nat, blocks: seq<nat>): set<nat> {
    (set b | b in blocks) + (if table == 0 then {} else {table})
  }

  /** No block has two uses, and all of them are allocated. */
  ghost predicate OwnOk(ds: nat, n: nat, bits: seq<bool>, table: nat, blocks: seq<nat>) {
    Distinct(blocks) && table !in blocks && forall lba :: lba in Owned(table, blocks) ==> Used(ds, n, bits, lba)
  }

  ghost predicate SectorsAgree(sectors: seq<nat>, blocks: seq<nat>) {
    |sectors| == DIRECT + 1 && forall i :: 0 <= i < DIRECT ==> sectors[i] == At(blocks, i)
  }

  /** From `start` on, the array of block addresses holds `blocks` and zeros. */
  ghost predicate AllAgree(all: seq<nat>, blocks: seq<nat>, start: nat) {
    |all| == MAX_BLOCKS && forall i :: start <= i < MAX_BLOCKS ==> all[i] == At(blocks, i)
  }

  ghost predicate TableAgrees(disk: Disk, table: nat, blocks: seq<nat>) {
    (table != 0 <==> |blocks| > DIRECT) &&
    (table != 0 ==> table < |disk| && forall i :: 0 <= i < WORDS ==> Words(disk[table])[i] == At(blocks, DIRECT + i))
  }

  /** The inode maps exactly `blocks`. */
  ghost predicate FileOk(ds: nat, disk: Disk, bits: seq<bool>, sectors: seq<nat>, blocks: seq<nat>) {
    && |blocks| <= MAX_BLOCKS && SectorsAgree(sectors, blocks) && TableAgrees(disk, sectors[DIRECT], blocks)
    && OwnOk(ds, |disk|, bits, sectors[DIRECT], blocks)
  }

  /** Blocks 0 .. size / 512 are mapped, and no more; none before the first write. */
  predicate SizeOk(size: nat, blocks: seq<nat>) {
    if blocks == [] then size == 0 else |blocks| == size / BLOCK_SIZE + 1
  }

  // ----- what a file holds -----

  function ByteAt(disk: Disk, blocks: seq<nat>, j: nat): byte {
    if j / BLOCK_SIZE < |blocks| && blocks[j / BLOCK_SIZE] < |disk| then disk[blocks[j / BLOCK_SIZE]][j % BLOCK_SIZE] else 0
  }

  function Content(disk: Disk, blocks: seq<nat>, size: nat): (s: seq<byte>)
    ensures |s| == size
  {
    seq(size, j requires 0 <= j => ByteAt(disk, blocks, j))
  }

  /** Only sectors in `own` may differ. */
  ghost predicate DiskKept(disk: Disk, disk': Disk, own: set<nat>) {
    |disk'| == |disk| && forall lba: nat :: lba < |disk| && lba !in own ==> disk'[lba] == disk[lba]
  }

  /** From owning `own` to owning `own'`: the new blocks were free, and they alone were marked. */
  ghost predicate Grew(ds: nat, n: nat, bits: seq<bool>, bits': seq<bool>, own: set<nat>, own': set<nat>) {
    && own <= own' && |bits'| == |bits|
    && (forall lba :: lba in own' && lba !in own ==> Free(ds, n, bits, lba))
    && (forall i :: 0 <= i < |bits| ==> (bits'[i] <==> bits[i] || ds + i in own' - own))
  }

  // ----- one more block -----

  lemma OwnSnoc(ds: nat, n: nat, bits: seq<bool>, table: nat, blocks: seq<nat>, lba: nat)
    requires OwnOk(ds, n, bits, table, blocks) && Free(ds, n, bits, lba)
    ensures OwnOk(ds, n, bits[lba - ds := true], table, blocks + [lba])
    ensures Owned(table, blocks + [lba]) == Owned(table, blocks) + {lba} && lba !in Owned(table, blocks)
  {
    assert lba !in Owned(table, blocks);
    assert lba !in blocks;
    DistinctAppend(blocks, lba);
  }

  lemma OwnTable(ds: nat, n: nat, bits: seq<bool>, blocks: seq<nat>, lba: nat)
    requires OwnOk(ds, n, bits, 0, blocks) && Free(ds, n, bits, lba)
    ensures OwnOk(ds, n, bits[lba - ds := true], lba, blocks)
    ensures Owned(lba, blocks) == Owned(0, blocks) + {lba} && lba !in Owned(0, blocks)
  {
    assert lba !in Owned(0, blocks);
  }

  lemma GrewSnoc(ds: nat, n: nat, bits0: seq<bool>, bits: seq<bool>, own0: set<nat>, own: set<nat>, lba: nat)
    requires Grew(ds, n, bits0, bits, own0, own) && Free(ds, n, bits, lba) && lba !in own
    ensures Grew(ds, n, bits0, bits[lba - ds := true], own0, own + {lba})
  {
  }

  /** A file that owned `own0` when the map was `bits0` now has these blocks. */
  ghost predicate Drafted(ds: nat, n: nat, bits0: seq<bool>, bits: seq<bool>, own0: set<nat>, table: nat, blocks: seq<nat>) {
    Geometry(ds, n, bits) && OwnOk(ds, n, bits, table, blocks) && Grew(ds, n, bits0, bits, own0, Owned(table, blocks))
  }

  lemma DraftBlock(ds: nat, n: nat, bits0: seq<bool>, bits: seq<bool>, own0: set<nat>, table: nat, blocks: seq<nat>, lba: nat)
    requires Drafted(ds, n, bits0, bits, own0, table, blocks) && Free(ds, n, bits, lba)
    ensures Drafted(ds, n, bits0, bits[lba - ds := true], own0, table, blocks + [lba])
  {
    GeometryKept(ds, n, bits, lba - ds);
    OwnSnoc(ds, n, bits, table, blocks, lba);
    GrewSnoc(ds, n, bits0, bits, own0, Owned(table, blocks), lba);
  }

  lemma DraftTable(ds: nat, n: nat, bits0: seq<bool>, bits: seq<bool>, own0: set<nat>, blocks: seq<nat>, lba: nat)
    requires Drafted(ds, n, bits0, bits, own0, 0, blocks) && Free(ds, n, bits, lba)
    ensures Drafted(ds, n, bits0, bits[lba - ds := true], own0, lba, blocks)
  {
    GeometryKept(ds, n, bits, lba - ds);
    OwnTable(ds, n, bits, blocks, lba);
    GrewSnoc(ds, n, bits0, bits, own0, Owned(0, blocks), lba);
  }

  lemma TableWritten(disk: Disk, table: nat, blocks: seq<nat>, all: seq<nat>)
    requires 0 < table < |disk| && DIRECT < |blocks| <= MAX_BLOCKS && AllAgree(all, blocks, DIRECT)
    requires forall i :: DIRECT <= i < |blocks| ==> blocks[i] < U32
    ensures TableAgrees(disk[table := FromWords(all[DIRECT..])], table, blocks)
  {
    WordsOfBytes(all[DIRECT..]);
  }

  /** Writing a sector that is not one of its blocks leaves a file as it was. */
  lemma ContentKept(disk: Disk, disk': Disk, blocks: seq<nat>, blocks': seq<nat>, size: nat, own: set<nat>)
    requires blocks <= blocks' && size <= BLOCK_SIZE * |blocks| && DiskKept(disk, disk', own) && forall b :: b in blocks ==> b !in own
    ensures Content(disk', blocks', size) == Content(disk, blocks, size)
  {
    forall j: nat | j < size ensures ByteAt(disk', blocks', j) == ByteAt(disk, blocks, j) {
      assert blocks[j / BLOCK_SIZE] in blocks;
    }
  }

  /** One free block was marked, and nothing else changed. */
  ghost predicate OneLost(ds: nat, n: nat, bits: seq<bool>, bits': seq<bool>) {
    exists lba: nat :: Free(ds, n, bits, lba) && bits' == bits[lba - ds := true]
  }

  lemma GeometryKept(ds: nat, n: nat, bits: seq<bool>, i: nat)
    requires Geometry(ds, n, bits) && i < |bits|
    ensures Geometry(ds, n, bits[i := true])
  {
  }

  // ----- one more chunk -----

  /** Writing a sector that keeps the file's bytes up to `size` and continues with `chunk`
      appends the chunk. */
  lemma StoreChunk(disk: Disk, blocks: seq<nat>, size: nat, sector: Sector, chunk: seq<byte>)
    requires Distinct(blocks) && size / BLOCK_SIZE < |blocks| && blocks[size / BLOCK_SIZE] < |disk|
    requires size % BLOCK_SIZE + |chunk| <= BLOCK_SIZE
    requires sector[..size % BLOCK_SIZE] == disk[blocks[size / BLOCK_SIZE]][..size % BLOCK_SIZE]
    requires sector[size % BLOCK_SIZE..size % BLOCK_SIZE + |chunk|] == chunk
    ensures Content(disk[blocks[size / BLOCK_SIZE] := sector], blocks, size + |chunk|) == Content(disk, blocks, size) + chunk
  {
    var k, off := size / BLOCK_SIZE, size % BLOCK_SIZE;
    var was := disk[blocks[k]];
    var disk' := disk[blocks[k] := sector];
    forall j: nat | j < size + |chunk| ensures ByteAt(disk', blocks, j) == (Content(disk, blocks, size) + chunk)[j] {
      if j < size {
        if j / BLOCK_SIZE == k {
          assert sector[..off][j % BLOCK_SIZE] == was[..off][j % BLOCK_SIZE];
        } else {
          assert j / BLOCK_SIZE < k && blocks[j / BLOCK_SIZE] != blocks[k];
        }
      } else {
        assert j / BLOCK_SIZE == k && j % BLOCK_SIZE == off + (j - size);
        assert sector[off..off + |chunk|][j - size] == chunk[j - size];
      }
    }
  }

  /** The sector that file_write puts together: `was` up to `off`, then the chunk. */
  function Overlay(was: Sector, off: nat, chunk: seq<byte>): Sector
    requires off + |chunk| <= BLOCK_SIZE
  {
    was[..off] + chunk + was[off + |chunk|..]
  }

  lemma BlockWritten(ds: nat, disk: Disk, bits: seq<bool>, sectors: seq<nat>, blocks: seq<nat>, lba: nat, sector: Sector)
    requires FileOk(ds, disk, bits, sectors, blocks) && lba in blocks && lba < |disk|
    ensures FileOk(ds, disk[lba := sector], bits, sectors, blocks)
  {
  }

  /** i_size - 1, on 32 bits */
  function LastPos(size: nat): nat {
    (size + U32 - 1) % U32
  }

  lemma LastPosStep(size: nat, chunk: nat)
    ensures (LastPos(size) + chunk) % U32 == LastPos(size + chunk)
  {
  }

  /** The branch that file_write never gets through: it compares with `=`. */
  predicate NeedsIndirect(size: nat, cnt: nat) {
    size / BLOCK_SIZE >= DIRECT && (size + cnt) / BLOCK_SIZE > size / BLOCK_SIZE
  }

  /** The 32-bit sum of size and count wraps round to something small: the code then runs off
      its array of addresses. A count like that needs a buffer of nearly 4 GB. */
  predicate RunsOff(size: nat, cnt: nat) {
    size + cnt >= U32 && (size + cnt) % U32 <= BLOCK_SIZE * MAX_BLOCKS
  }

  /** A file with these blocks grew to `blocks'`: only free blocks were taken, and no sector
      outside the file was written. */
  ghost predicate Extended(ds: nat, disk: Disk, bits: seq<bool>, table: nat, blocks: seq<nat>,
                           disk': Disk, bits': seq<bool>, table': nat, blocks': seq<nat>)
  {
    && blocks <= blocks' && Grew(ds, |disk|, bits, bits', Owned(table, blocks), Owned(table', blocks'))
    && DiskKept(disk, disk', Owned(table', blocks'))
  }

  lemma WriteDone(disk0: Disk, disk1: Disk, disk2: Disk, blocks: seq<nat>, bs: seq<nat>, size: nat, table: nat)
    requires blocks <= bs && size <= BLOCK_SIZE * |blocks| && table !in bs
    requires DiskKept(disk0, disk1, Owned(table, [])) && DiskKept(disk1, disk2, set b | b in bs)
    ensures Content(disk1, bs, size) == Content(disk0, blocks, size)
    ensures DiskKept(disk0, disk2, Owned(table, bs))
  {
    ContentKept(disk0, disk1, blocks, bs, size, Owned(table, []));
  }

  // ----- reading -----

  /** The position of a descriptor: within the file, or -1 after an empty first write. */
  predicate PosOk(pos: nat, size: nat) {
    pos <= size || pos == U32 - 1
  }

  /** A read over several direct blocks that ends inside the last one: its address is never
      looked up, and stays 0. */
  predicate Misses(pos: nat, want: nat) {
    pos / BLOCK_SIZE < (pos + want) / BLOCK_SIZE < DIRECT && (pos + want) % BLOCK_SIZE != 0
  }

  /** The bytes that file_read delivers. */
  function ReadOut(disk: Disk, blocks: seq<nat>, pos: nat, want: nat): (out: seq<byte>)
    requires disk != []
    ensures |out| == want
  {
    if Misses(pos, want) then
      var tail := (pos + want) % BLOCK_SIZE;
      Content(disk, blocks, pos + want - tail)[pos..] + disk[0][..tail]
    else
      Content(disk, blocks, pos + want)[pos..]
  }

  /** file_read delivers the slice of the file exactly when it does not miss a block, or when
      sector 0 happens to hold the bytes of the missed part. */
  lemma ReadIsSliceIff(disk: Disk, blocks: seq<nat>, size: nat, pos: nat, want: nat)
    requires disk != [] && pos + want <= size
    ensures var tail := (pos + want) % BLOCK_SIZE;
      ReadOut(disk, blocks, pos, want) == Content(disk, blocks, size)[pos..pos + want] <==>
      !(pos / BLOCK_SIZE < (pos + want) / BLOCK_SIZE < DIRECT && tail != 0) || disk[0][..tail] == Content(disk, blocks, size)[pos + want - tail..pos + want]
  {
    var tail := (pos + want) % BLOCK_SIZE;
    var out, slice := ReadOut(disk, blocks, pos, want), Content(disk, blocks, size)[pos..pos + want];
    if Misses(pos, want) {
      var k := pos + want - tail;
      assert k >= pos;
      assert out[..k - pos] == slice[..k - pos];
      assert out[k - pos..] == disk[0][..tail];
      assert slice[k - pos..] == Content(disk, blocks, size)[k..pos + want];
      assert slice == slice[..k - pos] + slice[k - pos..] && out == out[..k - pos] + out[k - pos..];
    } else {
      assert out == slice;
    }
  }

  /** What was appended is read back, unless the read goes over several direct blocks and ends
      inside one. */
  lemma ReadBack(disk: Disk, blocks: seq<nat>, before: seq<byte>, data: seq<byte>)
    requires disk != [] && Content(disk, blocks, |before| + |data|) == before + data
    requires var end := |before| + |data|; |before| / BLOCK_SIZE == end / BLOCK_SIZE || end / BLOCK_SIZE >= DIRECT || end % BLOCK_SIZE == 0
    ensures ReadOut(disk, blocks, |before|, |data|) == data
  {
    ReadIsSliceIff(disk, blocks, |before| + |data|, |before|, |data|);
  }

  /** A file of 513 ones that FileRead accepts does not come back: block 0 of the data area
      belongs to the root directory, the next two to the file. */
  lemma ReadLosesTail() returns (ds: nat, disk: Disk, bits: seq<bool>, sectors: seq<nat>, blocks: seq<nat>)
    ensures Geometry(ds, |disk|, bits) && FileOk(ds, disk, bits, sectors, blocks) && SizeOk(513, blocks)
    ensures disk != [] && ReadOut(disk, blocks, 0, 513) != Content(disk, blocks, 513)
  {
    var ones: Sector := seq(BLOCK_SIZE, _ => 1);
    ds, bits, blocks, disk := 1, [true, true, true], [2, 3], [ZeroSector(), ZeroSector(), ones, ones];
    sectors := [2, 3] + seq(DIRECT - 1, _ => 0);
    assert ReadOut(disk, blocks, 0, 513)[512] == 0;
    assert Content(disk, blocks, 513)[512] == 1;
  }

  function Min(a: nat, b: nat): nat {
    if a <= b then a else b
  }

  /** The 32-bit sums of file_read do not wrap, except for the position -1, which is refused. */
  lemma ClampRight(pos: nat, cnt: nat, size: nat, want: nat)
    requires PosOk(pos, size) && cnt < U32 && (pos <= size ==> pos + cnt < U32) && size < BLOCK_SIZE * MAX_BLOCKS
    requires want == if (pos + cnt) % U32 > size then (size - pos) % U32 else cnt
    ensures pos <= size ==> want == Min(cnt, size - pos) && (pos + want) % U32 == pos + want <= size
    ensures pos / BLOCK_SIZE < READ_LIMIT ==> pos <= size
  {
  }

  lemma ContentGrows(disk: Disk, all: seq<nat>, pos: nat, chunk: nat)
    requires pos % BLOCK_SIZE + chunk <= BLOCK_SIZE && pos / BLOCK_SIZE < |all| && all[pos / BLOCK_SIZE] < |disk|
    ensures Content(disk, all, pos + chunk) == Content(disk, all, pos) + disk[all[pos / BLOCK_SIZE]][pos % BLOCK_SIZE..pos % BLOCK_SIZE + chunk]
  {
    forall j: nat | pos <= j < pos + chunk ensures j / BLOCK_SIZE == pos / BLOCK_SIZE && j % BLOCK_SIZE == pos % BLOCK_SIZE + (j - pos) {
    }
  }

  /** The addresses that LookUp collected are on the disk. */
  lemma AllOnDisk(ds: nat, disk: Disk, bits: seq<bool>, sectors: seq<nat>, blocks: seq<nat>, all: seq<nat>, start: nat, end: nat)
    requires FileOk(ds, disk, bits, sectors, blocks) && Geometry(ds, |disk|, bits) && |all| == MAX_BLOCKS && end < MAX_BLOCKS
    requires forall i :: start <= i <= end ==> all[i] == if start < i == end < DIRECT then 0 else At(blocks, i)
    ensures forall i :: start <= i <= end ==> all[i] < |disk|
  {
    forall i | start <= i <= end ensures all[i] < |disk| {
      if i < |blocks| {
        assert blocks[i] in Owned(sectors[DIRECT], blocks);
      }
    }
  }

  lemma FetchedIsReadOut(disk: Disk, blocks: seq<nat>, all: seq<nat>, pos: nat, want: nat)
    requires disk != [] && |all| == MAX_BLOCKS && (pos + want) / BLOCK_SIZE < READ_LIMIT
    requires var start, end := pos / BLOCK_SIZE, (pos + want) / BLOCK_SIZE;
      forall i :: start <= i <= end ==> all[i] == if start < i == end < DIRECT then 0 else At(blocks, i)
    requires (pos + want) / BLOCK_SIZE < |blocks| || want == 0
    ensures Content(disk, all, pos + want)[pos..] == ReadOut(disk, blocks, pos, want)
  {
    var e := (pos + want) / BLOCK_SIZE;
    var got, out := Content(disk, all, pos + want)[pos..], ReadOut(disk, blocks, pos, want);
    forall j: nat | j < want ensures got[j] == out[j] {
      assert (pos + j) / BLOCK_SIZE <= e;
      if (pos + j) / BLOCK_SIZE == e {
        assert (pos + want) % BLOCK_SIZE != 0;
      }
    }
  }

  // ----- seeking -----

  const SEEK_SET: nat := 1
  const SEEK_CUR: nat := 2
  const SEEK_END: nat := 3

  /** The value that an int32_t takes */
  function Int32(x: int): (r: int)
    ensures -(U32 / 2) <= x < U32 / 2 ==> r == x
    ensures U32 / 2 <= x < U32 ==> r == x - U32
  {
    var m := x % U32;
    if m < U32 / 2 then m else m - U32
  }

  // ----- releasing -----

  /** Exactly the bits of `own` were cleared. */
  ghost predicate Cleared(ds: nat, bits: seq<bool>, bits': seq<bool>, own: set<nat>) {
    |bits'| == |bits| && forall i :: 0 <= i < |bits| ==> (bits'[i] <==> bits[i] && ds + i !in own)
  }

  /** The blocks that inode_release reaches: its loop stops before index 139. */
  function Released(blocks: seq<nat>): seq<nat> {
    FirstOf(blocks, READ_LIMIT)
  }

  function FirstOf(blocks: seq<nat>, n: nat): seq<nat> {
    if |blocks| <= n then blocks else blocks[..n]
  }

  /** All blocks of a file are released if and only if there are at most 139; of a file of
      140 blocks the last one stays allocated. */
  lemma ReleasesAllIff(ds: nat, n: nat, bits: seq<bool>, table: nat, blocks: seq<nat>)
    requires OwnOk(ds, n, bits, table, blocks) && |blocks| <= MAX_BLOCKS
    ensures Owned(table, Released(blocks)) == Owned(table, blocks) <==> |blocks| <= READ_LIMIT
    ensures |blocks| > READ_LIMIT ==> Owned(table, Released(blocks)) == Owned(table, blocks) - {blocks[READ_LIMIT]}
  {
    if |blocks| > READ_LIMIT {
      var last := blocks[READ_LIMIT];
      assert blocks == blocks[..READ_LIMIT] + [last];
      assert last !in blocks[..READ_LIMIT];
      assert last in Owned(table, blocks) && last !in Owned(table, Released(blocks));
    }
  }

  class Inode {
    var size: nat
    var sectors: seq<nat>

    /** inode_init */
    constructor ()
      ensures size == 0 && sectors == seq(DIRECT + 1, _ => 0)
    {
      size, sectors := 0, seq(DIRECT + 1, _ => 0);
    }
  }

  class File {
    var pos: nat
    const inode: Inode

    constructor (inode: Inode)
      ensures this.inode == inode && pos == 0
    {
      this.inode, pos := inode, 0;
    }
  }

  class Partition {
    const ds: nat
    var disk: Disk
    var bits: seq<bool>

    constructor (ds: nat, disk: Disk, bits: seq<bool>)
      ensures this.ds == ds && this.disk == disk && this.bits == bits
    {
      this.ds, this.disk, this.bits := ds, disk, bits;
    }

    ghost predicate Shape()
      reads this
    {
      Geometry(ds, |disk|, bits)
    }

    /** block_bitmap_alloc: the lowest free block; a full map fails the ASSERT of bitmap_scan */
    method BlockBitmapAlloc() returns (r: Outcome<nat>)
      requires Shape()
      modifies this`bits
      ensures Shape()
      ensures r.Halt? ==> Bitmap.AllSet(bits)
      ensures r.Done? ==> Free(ds, |disk|, old(bits), r.value) && bits == old(bits)[r.value - ds := true]
      ensures r.Done? ==> forall lba: nat :: lba < r.value ==> !Free(ds, |disk|, old(bits), lba)
    {
      var i := Bitmap.ScanOne(bits);
      if i == -1 {
        return Halt;
      }
      GeometryKept(ds, |disk|, bits, i);
      bits := bits[i := true];
      return Done(ds + i);
    }

    method TakeBlock(ghost bits0: seq<bool>, ghost own0: set<nat>, ghost table: nat, ghost blocks: seq<nat>) returns (r: Outcome<nat>)
      requires Drafted(ds, |disk|, bits0, bits, own0, table, blocks)
      modifies this`bits
      ensures r.Halt? ==> Bitmap.AllSet(bits)
      ensures r.Done? ==> Drafted(ds, |disk|, bits0, bits, own0, table, blocks + [r.value]) && 0 < r.value < |disk|
    {
      r := BlockBitmapAlloc();
      if r.Done? {
        DraftBlock(ds, |disk|, bits0, old(bits), own0, table, blocks, r.value);
      }
    }

    method TakeTable(ghost bits0: seq<bool>, ghost own0: set<nat>, ghost blocks: seq<nat>) returns (r: Outcome<nat>)
      requires Drafted(ds, |disk|, bits0, bits, own0, 0, blocks)
      modifies this`bits
      ensures r.Halt? ==> Bitmap.AllSet(bits)
      ensures r.Done? ==> Drafted(ds, |disk|, bits0, bits, own0, r.value, blocks) && 0 < r.value < |disk|
    {
      r := BlockBitmapAlloc();
      if r.Done? {
        DraftTable(ds, |disk|, bits0, old(bits), own0, blocks, r.value);
      }
    }

    /** The loop of file_write that gives new blocks to direct entries */
    method AddDirect(inode: Inode, has: nat, will: nat, all0: seq<nat>, ghost bits0: seq<bool>, ghost own0: set<nat>, ghost blocks: seq<nat>)
      returns (halted: bool, all: seq<nat>, ghost bs: seq<nat>)
      requires 1 <= has == |blocks| && has <= will <= DIRECT && SectorsAgree(inode.sectors, blocks) && inode.sectors[DIRECT] == 0
      requires Drafted(ds, |disk|, bits0, bits, own0, 0, blocks) && AllAgree(all0, blocks, has - 1)
      modifies this`bits, inode`sectors
      ensures halted ==> Bitmap.AllSet(bits)
      ensures !halted ==> blocks <= bs && |bs| == will && SectorsAgree(inode.sectors, bs) && inode.sectors[DIRECT] == 0
      ensures !halted ==> Drafted(ds, |disk|, bits0, bits, own0, 0, bs) && AllAgree(all, bs, has - 1)
    {
      all, bs := all0, blocks;
      var blockIdx := has;
      while blockIdx < will
        invariant has <= blockIdx <= will && |bs| == blockIdx && blocks <= bs
        invariant SectorsAgree(inode.sectors, bs) && inode.sectors[DIRECT] == 0
        invariant Drafted(ds, |disk|, bits0, bits, own0, 0, bs) && AllAgree(all, bs, has - 1)
      {
        var lba := TakeBlock(bits0, own0, 0, bs);
        if lba.Halt? {
          return true, all, bs;
        }
        assert inode.sectors[blockIdx] == 0;
        inode.sectors := inode.sectors[blockIdx := lba.value];
        all := all[blockIdx := lba.value];
        bs := bs + [lba.value];
        blockIdx := blockIdx + 1;
      }
      halted := false;
    }

    /** The loop of file_write that gives new blocks to direct and then to indirect entries */
    method AddCrossing(inode: Inode, has: nat, will: nat, all0: seq<nat>, ghost bits0: seq<bool>, ghost own0: set<nat>, ghost blocks: seq<nat>)
      returns (halted: bool, all: seq<nat>, ghost bs: seq<nat>)
      requires 1 <= has == |blocks| && has <= DIRECT < will <= MAX_BLOCKS && SectorsAgree(inode.sectors, blocks)
      requires Drafted(ds, |disk|, bits0, bits, own0, inode.sectors[DIRECT], blocks) && AllAgree(all0, blocks, has - 1)
      modifies this`bits, inode`sectors
      ensures halted ==> Bitmap.AllSet(bits)
      ensures !halted ==> blocks <= bs && |bs| == will && SectorsAgree(inode.sectors, bs)
      ensures !halted ==> inode.sectors[DIRECT] == old(inode.sectors)[DIRECT] && AllAgree(all, bs, has - 1)
      ensures !halted ==> Drafted(ds, |disk|, bits0, bits, own0, inode.sectors[DIRECT], bs)
    {
      all, bs := all0, blocks;
      var blockIdx := has;
      while blockIdx < will
        invariant has <= blockIdx <= will && |bs| == blockIdx && blocks <= bs
        invariant SectorsAgree(inode.sectors, bs) && inode.sectors[DIRECT] == old(inode.sectors)[DIRECT]
        invariant Drafted(ds, |disk|, bits0, bits, own0, inode.sectors[DIRECT], bs) && AllAgree(all, bs, has - 1)
      {
        var lba := TakeBlock(bits0, own0, inode.sectors[DIRECT], bs);
        if lba.Halt? {
          return true, all, bs;
        }
        if blockIdx < DIRECT {
          assert inode.sectors[blockIdx] == 0;
          inode.sectors := inode.sectors[blockIdx := lba.value];
        }
        all := all[blockIdx := lba.value];
        bs := bs + [lba.value];
        blockIdx := blockIdx + 1;
      }
      halted := false;
    }

    /** The case of file_write that builds the indirect table */
    method CrossBlocks(inode: Inode, has: nat, will: nat, all0: seq<nat>, ghost bits0: seq<bool>, ghost own0: set<nat>, ghost blocks: seq<nat>)
      returns (halted: bool, all: seq<nat>, ghost bs: seq<nat>)
      requires 1 <= has == |blocks| && has <= DIRECT < will <= MAX_BLOCKS && SectorsAgree(inode.sectors, blocks) && inode.sectors[DIRECT] == 0
      requires Drafted(ds, |disk|, bits0, bits, own0, 0, blocks) && AllAgree(all0, blocks, has - 1)
      modifies this, inode`sectors
      ensures halted ==> Bitmap.AllSet(bits)
      ensures !halted ==> blocks <= bs && |bs| == will && AllAgree(all, bs, has - 1) && |inode.sectors| == DIRECT + 1
      ensures !halted ==> Drafted(ds, |disk|, bits0, bits, own0, inode.sectors[DIRECT], bs) && FileOk(ds, disk, bits, inode.sectors, bs)
      ensures !halted ==> DiskKept(old(disk), disk, Owned(inode.sectors[DIRECT], []))
    {
      var t := TakeTable(bits0, own0, blocks);
      if t.Halt? {
        return true, all0, blocks;
      }
      inode.sectors := inode.sectors[DIRECT := t.value];
      halted, all, bs := AddCrossing(inode, has, will, all0, bits0, own0, blocks);
      if !halted {
        forall i | DIRECT <= i < |bs| ensures bs[i] < U32 {
          assert bs[i] in Owned(t.value, bs);
        }
        TableWritten(disk, t.value, bs, all);
        disk := disk[t.value := FromWords(all[DIRECT..])];
      }
    }

    /** The part of file_write that collects block addresses and allocates what is missing */
    method LocateBlocks(inode: Inode, has: nat, will: nat, ghost bits0: seq<bool>, ghost own0: set<nat>, ghost blocks: seq<nat>)
      returns (r: Outcome<Option<seq<nat>>>, ghost bs: seq<nat>)
      requires 1 <= has == |blocks| && has <= will <= MAX_BLOCKS && FileOk(ds, disk, bits, inode.sectors, blocks)
      requires Drafted(ds, |disk|, bits0, bits, own0, inode.sectors[DIRECT], blocks)
      modifies this, inode`sectors
      ensures r.Halt? ==> Bitmap.AllSet(bits)
      ensures r == Done(None) ==>
        has > DIRECT && will > has && disk == old(disk) && inode.sectors == old(inode.sectors) && OneLost(ds, |disk|, old(bits), bits)
      ensures r.Done? && r.value.Some? ==> (has <= DIRECT || will == has) && blocks <= bs && |bs| == will && AllAgree(r.value.value, bs, has - 1)
      ensures r.Done? && r.value.Some? ==> FileOk(ds, disk, bits, inode.sectors, bs)
      ensures r.Done? && r.value.Some? ==> Drafted(ds, |disk|, bits0, bits, own0, inode.sectors[DIRECT], bs)
      ensures r.Done? && r.value.Some? ==> DiskKept(old(disk), disk, Owned(inode.sectors[DIRECT], []))
    {
      var all := seq(MAX_BLOCKS, _ => 0);
      bs := blocks;
      if will == has {
        if has <= DIRECT {
          all := all[has - 1 := inode.sectors[has - 1]];
        } else {
          assert inode.sectors[DIRECT] != 0;
          all := all[..DIRECT] + Words(disk[inode.sectors[DIRECT]]);
        }
      } else if has <= DIRECT {
        assert blocks[has - 1] in Owned(0, blocks);
        assert inode.sectors[has - 1] != 0;
        all := all[has - 1 := inode.sectors[has - 1]];
        var halted;
        if will <= DIRECT {
          halted, all, bs := AddDirect(inode, has, will, all, bits0, own0, blocks);
        } else {
          halted, all, bs := CrossBlocks(inode, has, will, all, bits0, own0, blocks);
        }
        if halted {
          return Halt, bs;
        }
      } else {
        assert inode.sectors[DIRECT] != 0;
        var lba := BlockBitmapAlloc();
        return if lba.Halt? then Halt else Done(None), bs;
      }
      return Done(Some(all)), bs;
    }

    /** One round of the loop of file_write that puts the bytes on the disk */
    method AppendChunk(f: File, lba: nat, data: seq<byte>, first: bool, ghost blocks: seq<nat>) returns (chunk: nat)
      requires FileOk(ds, disk, bits, f.inode.sectors, blocks) && f.pos == LastPos(f.inode.size)
      requires f.inode.size / BLOCK_SIZE < |blocks| && lba == blocks[f.inode.size / BLOCK_SIZE] && data != []
      requires first || f.inode.size % BLOCK_SIZE == 0
      modifies this`disk, f, f.inode`size
      ensures 0 < chunk <= |data| && f.inode.size == old(f.inode.size) + chunk && f.pos == LastPos(f.inode.size)
      ensures chunk == |data| || f.inode.size % BLOCK_SIZE == 0
      ensures FileOk(ds, disk, bits, f.inode.sectors, blocks) && DiskKept(old(disk), disk, {lba}) && lba in blocks
      ensures Content(disk, blocks, f.inode.size) == Content(old(disk), blocks, old(f.inode.size)) + data[..chunk]
    {
      var off := f.inode.size % BLOCK_SIZE;
      var left := BLOCK_SIZE - off;
      chunk := if |data| < left then |data| else left;
      assert lba in Owned(f.inode.sectors[DIRECT], blocks);
      var io := if first then disk[lba] else ZeroSector();
      io := Overlay(io, off, data[..chunk]);
      StoreChunk(disk, blocks, f.inode.size, io, data[..chunk]);
      BlockWritten(ds, disk, bits, f.inode.sectors, blocks, lba, io);
      disk := disk[lba := io];
      LastPosStep(f.inode.size, chunk);
      f.inode.size := f.inode.size + chunk;
      f.pos := (f.pos + chunk) % U32;
    }

    /** The loop of file_write that puts the bytes on the disk */
    method Append(f: File, all: seq<nat>, data: seq<byte>, ghost blocks: seq<nat>)
      requires FileOk(ds, disk, bits, f.inode.sectors, blocks) && AllAgree(all, blocks, f.inode.size / BLOCK_SIZE)
      requires (f.inode.size + |data|) / BLOCK_SIZE < |blocks|
      modifies this`disk, f, f.inode`size
      ensures f.inode.size == old(f.inode.size) + |data| && f.pos == LastPos(f.inode.size)
      ensures FileOk(ds, disk, bits, f.inode.sectors, blocks) && DiskKept(old(disk), disk, set b | b in blocks)
      ensures Content(disk, blocks, f.inode.size) == Content(old(disk), blocks, old(f.inode.size)) + data
    {
      var size0 := f.inode.size;
      var written := 0;
      f.pos := LastPos(f.inode.size);
      while written < |data|
        invariant 0 <= written <= |data| && f.inode.size == size0 + written && f.pos == LastPos(f.inode.size)
        invariant written == 0 || written == |data| || f.inode.size % BLOCK_SIZE == 0
        invariant FileOk(ds, disk, bits, f.inode.sectors, blocks) && DiskKept(old(disk), disk, set b | b in blocks)
        invariant Content(disk, blocks, f.inode.size) == Content(old(disk), blocks, size0) + data[..written]
      {
        var chunk := AppendChunk(f, all[f.inode.size / BLOCK_SIZE], data[written..], written == 0, blocks);
        assert data[..written + chunk] == data[..written] + data[written..][..chunk];
        written := written + chunk;
      }
      assert data[..written] == data;
    }

    /** The first block of a file that has none */
    method FirstBlock(inode: Inode, ghost blocks: seq<nat>) returns (halted: bool, ghost bs: seq<nat>)
      requires Shape() && FileOk(ds, disk, bits, inode.sectors, blocks) && SizeOk(inode.size, blocks)
      modifies this`bits, inode`sectors
      ensures halted ==> Bitmap.AllSet(bits)
      ensures !halted ==> blocks <= bs && FileOk(ds, disk, bits, inode.sectors, bs) && |bs| == inode.size / BLOCK_SIZE + 1
      ensures !halted ==> Drafted(ds, |disk|, old(bits), bits, Owned(old(inode.sectors)[DIRECT], blocks), inode.sectors[DIRECT], bs)
      ensures blocks != [] ==> !halted && bs == blocks && inode.sectors == old(inode.sectors) && bits == old(bits)
    {
      bs := blocks;
      halted := false;
      if blocks != [] {
        assert blocks[0] in Owned(inode.sectors[DIRECT], blocks);
      }
      if inode.sectors[0] == 0 {
        var lba := TakeBlock(bits, Owned(0, []), 0, []);
        if lba.Halt? {
          return true, bs;
        }
        inode.sectors := inode.sectors[0 := lba.value];
        bs := [lba.value];
      }
    }

    /** file_write. `blocks` are the file's blocks before the call and `bs` after it. */
    method FileWrite(f: File, data: seq<byte>, ghost blocks: seq<nat>) returns (r: Outcome<int>, ghost bs: seq<nat>)
      requires Shape() && FileOk(ds, disk, bits, f.inode.sectors, blocks) && SizeOk(f.inode.size, blocks)
      requires |data| < U32 && !RunsOff(f.inode.size, |data|)
      modifies this, f, f.inode
      ensures old(f.inode.size) + |data| == BLOCK_SIZE * MAX_BLOCKS ==> r.Halt?
      ensures r.Halt? ==> old(f.inode.size) + |data| == BLOCK_SIZE * MAX_BLOCKS || Bitmap.AllSet(bits)
      ensures r.Done? ==> Shape() && FileOk(ds, disk, bits, f.inode.sectors, bs) && SizeOk(f.inode.size, bs)
      ensures r.Done? ==> var size, table := old(f.inode.size) + |data|, old(f.inode.sectors)[DIRECT];
        r.value == if size > BLOCK_SIZE * MAX_BLOCKS || (table != 0 && size / BLOCK_SIZE + 1 > |blocks|) then -1 else |data|
      ensures r.Done? && r.value == -1 ==> unchanged(f, f.inode, this`disk) && bs == blocks
      ensures r.Done? && r.value == -1 ==> bits == old(bits) || (f.inode.sectors[DIRECT] != 0 && OneLost(ds, |disk|, old(bits), bits))
      ensures r.Done? && r.value != -1 ==> f.inode.size == old(f.inode.size) + |data|
      ensures r.Done? && r.value != -1 ==> f.pos == if f.inode.size == 0 then U32 - 1 else f.inode.size - 1
      ensures r.Done? && r.value != -1 ==> Content(disk, bs, f.inode.size) == Content(old(disk), blocks, old(f.inode.size)) + data
      ensures r.Done? && r.value != -1 ==>
        Extended(ds, old(disk), old(bits), old(f.inode.sectors)[DIRECT], blocks, disk, bits, f.inode.sectors[DIRECT], bs)
    {
      r, bs := Done(-1), blocks;
      if (f.inode.size + |data|) % U32 <= BLOCK_SIZE * MAX_BLOCKS {
        var all;
        all, bs := Allocate(f.inode, |data|, blocks);
        if all.Halt? {
          r := Halt;
        } else if all.value.Some? {
          ghost var located := disk;
          Append(f, all.value.value, data, bs);
          WriteDone(old(disk), located, disk, blocks, bs, old(f.inode.size), f.inode.sectors[DIRECT]);
          r := Done(|data|);
        }
      }
    }

    /** file_write up to its last loop: the blocks for `cnt` more bytes, and their addresses */
    method Allocate(inode: Inode, cnt: nat, ghost blocks: seq<nat>) returns (r: Outcome<Option<seq<nat>>>, ghost bs: seq<nat>)
      requires Shape() && FileOk(ds, disk, bits, inode.sectors, blocks) && SizeOk(inode.size, blocks)
      requires inode.size + cnt <= BLOCK_SIZE * MAX_BLOCKS
      modifies this, inode`sectors
      ensures inode.size + cnt == BLOCK_SIZE * MAX_BLOCKS ==> r.Halt?
      ensures r.Halt? ==> inode.size + cnt == BLOCK_SIZE * MAX_BLOCKS || Bitmap.AllSet(bits)
      ensures r == Done(None) <==> r.Done? && NeedsIndirect(inode.size, cnt)
      ensures r == Done(None) ==> bs == blocks && inode.sectors == old(inode.sectors) && disk == old(disk) && OneLost(ds, |disk|, old(bits), bits)
      ensures r.Done? && r.value.Some? ==> blocks <= bs && |bs| == (inode.size + cnt) / BLOCK_SIZE + 1
      ensures r.Done? && r.value.Some? ==> AllAgree(r.value.value, bs, inode.size / BLOCK_SIZE) && FileOk(ds, disk, bits, inode.sectors, bs)
      ensures r.Done? && r.value.Some? ==> Drafted(ds, |disk|, old(bits), bits, Owned(old(inode.sectors)[DIRECT], blocks), inode.sectors[DIRECT], bs)
      ensures r.Done? && r.value.Some? ==> DiskKept(old(disk), disk, Owned(inode.sectors[DIRECT], []))
    {
      var halted;
      halted, bs := FirstBlock(inode, blocks);
      ghost var own := Owned(old(inode.sectors)[DIRECT], blocks);
      var has := inode.size / BLOCK_SIZE + 1;
      var will := (inode.size + cnt) / BLOCK_SIZE + 1;
      if halted || !(will <= MAX_BLOCKS) {
        return Halt, bs;
      }
      r, bs := LocateBlocks(inode, has, will, old(bits), own, bs);
      bs := if r == Done(None) then blocks else bs;
    }

    /** The part of file_read that collects block addresses */
    method LookUp(inode: Inode, start: nat, end: nat, ghost blocks: seq<nat>) returns (all: seq<nat>)
      requires FileOk(ds, disk, bits, inode.sectors, blocks) && SizeOk(inode.size, blocks)
      requires start <= end <= inode.size / BLOCK_SIZE && end < READ_LIMIT
      ensures |all| == MAX_BLOCKS && forall i :: start <= i <= end ==> all[i] == if start < i == end < DIRECT then 0 else At(blocks, i)
    {
      all := seq(MAX_BLOCKS, _ => 0);
      if start == end {
        if end < DIRECT {
          all := all[end := inode.sectors[end]];
        } else {
          all := all[..DIRECT] + Words(disk[inode.sectors[DIRECT]]);
        }
      } else if end < DIRECT {
        all := CopyDirect(inode, start, end, blocks);
      } else if start < DIRECT {
        all := CopyDirect(inode, start, DIRECT, blocks);
        assert inode.sectors[DIRECT] != 0;
        all := all[..DIRECT] + Words(disk[inode.sectors[DIRECT]]);
      } else {
        assert inode.sectors[DIRECT] != 0;
        all := all[..DIRECT] + Words(disk[inode.sectors[DIRECT]]);
      }
    }

    method CopyDirect(inode: Inode, start: nat, end: nat, ghost blocks: seq<nat>) returns (all: seq<nat>)
      requires SectorsAgree(inode.sectors, blocks) && start <= end <= DIRECT
      ensures |all| == MAX_BLOCKS && forall i :: 0 <= i < MAX_BLOCKS ==> all[i] == if start <= i < end then At(blocks, i) else 0
    {
      all := seq(MAX_BLOCKS, _ => 0);
      var blockIdx := start;
      while blockIdx < end
        invariant start <= blockIdx <= end && |all| == MAX_BLOCKS
        invariant forall i :: 0 <= i < MAX_BLOCKS ==> all[i] == if start <= i < blockIdx then At(blocks, i) else 0
      {
        all := all[blockIdx := inode.sectors[blockIdx]];
        blockIdx := blockIdx + 1;
      }
    }

    /** The loop of file_read */
    method Fetch(f: File, all: seq<nat>, want: nat) returns (out: seq<byte>)
      requires |all| == MAX_BLOCKS && f.pos + want < BLOCK_SIZE * READ_LIMIT
      requires forall i :: f.pos / BLOCK_SIZE <= i <= (f.pos + want) / BLOCK_SIZE ==> all[i] < |disk|
      modifies f
      ensures f.pos == old(f.pos) + want && out == Content(disk, all, f.pos)[old(f.pos)..]
    {
      ghost var pos0 := f.pos;
      out := [];
      while |out| < want
        invariant 0 <= |out| <= want && f.pos == pos0 + |out| && out == Content(disk, all, f.pos)[pos0..]
      {
        var secIdx := f.pos / BLOCK_SIZE;
        var off := f.pos % BLOCK_SIZE;
        var left := BLOCK_SIZE - off;
        var chunk := if want - |out| < left then want - |out| else left;
        assert secIdx <= (pos0 + want) / BLOCK_SIZE;
        var io := disk[all[secIdx]];
        ContentGrows(disk, all, f.pos, chunk);
        out := out + io[off..off + chunk];
        f.pos := f.pos + chunk;
      }
    }

    /** file_read; `None` is its -1, and the ASSERT refuses to reach block 139 */
    method FileRead(f: File, cnt: nat, ghost blocks: seq<nat>) returns (r: Outcome<Option<seq<byte>>>)
      requires Shape() && FileOk(ds, disk, bits, f.inode.sectors, blocks) && SizeOk(f.inode.size, blocks) && PosOk(f.pos, f.inode.size)
      requires cnt < U32 && (f.pos <= f.inode.size ==> f.pos + cnt < U32)
      modifies f
      ensures r.Halt? <==>
        || old(f.pos) > f.inode.size
        || (r != Done(None) && old(f.pos) + Min(cnt, f.inode.size - old(f.pos)) >= BLOCK_SIZE * READ_LIMIT)
      ensures r == Done(None) <==> old(f.pos) == f.inode.size && cnt > 0
      ensures r.Done? && r.value.Some? ==> old(f.pos) <= f.inode.size && var want := Min(cnt, f.inode.size - old(f.pos));
        f.pos == old(f.pos) + want && disk != [] && r.value.value == ReadOut(disk, blocks, old(f.pos), want)
      ensures r.Done? ==> PosOk(f.pos, f.inode.size)
    {
      var want := cnt;
      if (f.pos + cnt) % U32 > f.inode.size {
        want := (f.inode.size - f.pos) % U32;
        if want == 0 {
          return Done(None);
        }
      }
      ClampRight(f.pos, cnt, f.inode.size, want);
      var start := f.pos / BLOCK_SIZE;
      var end := (f.pos + want) % U32 / BLOCK_SIZE;
      if !(start < READ_LIMIT && end < READ_LIMIT) {
        return Halt;
      }
      var out := ReadBlocks(f, want, blocks);
      return Done(Some(out));
    }

    method ReadBlocks(f: File, want: nat, ghost blocks: seq<nat>) returns (out: seq<byte>)
      requires Shape() && FileOk(ds, disk, bits, f.inode.sectors, blocks) && SizeOk(f.inode.size, blocks)
      requires f.pos + want <= f.inode.size && f.pos + want < BLOCK_SIZE * READ_LIMIT
      modifies f
      ensures f.pos == old(f.pos) + want && out == ReadOut(disk, blocks, old(f.pos), want)
    {
      var start := f.pos / BLOCK_SIZE;
      var end := (f.pos + want) / BLOCK_SIZE;
      var all := LookUp(f.inode, start, end, blocks);
      AllOnDisk(ds, disk, bits, f.inode.sectors, blocks, all, start, end);
      FetchedIsReadOut(disk, blocks, all, f.pos, want);
      out := Fetch(f, all, want);
    }

    /** sys_lseek on an open file */
    method Lseek(f: File, offset: int, whence: nat) returns (r: Outcome<int>)
      requires PosOk(f.pos, f.inode.size) && f.inode.size < BLOCK_SIZE * MAX_BLOCKS && -(U32 / 2) <= offset < U32 / 2
      modifies f
      ensures r.Halt? <==> !(0 < whence < 4)
      ensures whence == SEEK_SET ==> r == Done(if 0 <= offset < f.inode.size then offset else -1)
      ensures whence == SEEK_CUR && old(f.pos) <= f.inode.size ==>
        r == Done(if 0 <= old(f.pos) + offset < f.inode.size then old(f.pos) + offset else -1)
      ensures whence == SEEK_CUR && old(f.pos) > f.inode.size ==> r == Done(if 0 <= offset - 1 < f.inode.size then offset - 1 else -1)
      ensures whence == SEEK_END ==> r == Done(if 0 <= f.inode.size + offset < f.inode.size then f.inode.size + offset else -1)
      ensures r.Done? ==> f.pos == if r.value == -1 then old(f.pos) else r.value
      ensures PosOk(f.pos, f.inode.size)
    {
      if !(0 < whence < 4) {
        return Halt;
      }
      var newPos := if whence == SEEK_SET then offset else if whence == SEEK_CUR then Int32(offset + Int32(f.pos)) else Int32(f.inode.size + offset);
      if newPos < 0 || newPos > f.inode.size - 1 {
        return Done(-1);
      }
      f.pos := newPos;
      return Done(newPos);
    }

    /** Two moves from the current position that stay in the file are one move by their sum, and a
        move by 0 is none. */
    method SeekTwice(f: File, a: int, b: int) returns (first: Outcome<int>, second: Outcome<int>)
      requires f.pos <= f.inode.size < BLOCK_SIZE * MAX_BLOCKS && -(U32 / 2) <= a < U32 / 2 && -(U32 / 2) <= b < U32 / 2
      modifies f
      ensures first.Done? && second.Done?
      ensures first.value != -1 && second.value != -1 ==> f.pos == old(f.pos) + a + b && 0 <= old(f.pos) + a + b < f.inode.size
      ensures a == 0 && b == 0 ==> f.pos == old(f.pos)
      ensures first.value == -1 && second.value == -1 ==> f.pos == old(f.pos)
    {
      first := Lseek(f, a, SEEK_CUR);
      second := Lseek(f, b, SEEK_CUR);
    }

    /** A seek to byte `n` from the start, and the same one from the end */
    method SeekTo(f: File, n: nat, fromEnd: bool)
      requires PosOk(f.pos, f.inode.size) && n < f.inode.size < BLOCK_SIZE * MAX_BLOCKS
      modifies f
      ensures f.pos == n
    {
      var p := Lseek(f, if fromEnd then n - f.inode.size else n, if fromEnd then SEEK_END else SEEK_SET);
    }

    /** After a seek to byte `n`, a read delivers the file from byte `n` on: wherever the position
        was before, and in the same way `k` bytes before the end. */
    method SeekThenRead(f: File, n: nat, fromEnd: bool, cnt: nat, ghost blocks: seq<nat>) returns (r: Outcome<Option<seq<byte>>>)
      requires Shape() && FileOk(ds, disk, bits, f.inode.sectors, blocks) && SizeOk(f.inode.size, blocks) && PosOk(f.pos, f.inode.size)
      requires n < f.inode.size && n + cnt < U32
      modifies f
      ensures r.Halt? <==> n + Min(cnt, f.inode.size - n) >= BLOCK_SIZE * READ_LIMIT
      ensures r.Done? ==> r.value.Some? && r.value.value == ReadOut(disk, blocks, n, Min(cnt, f.inode.size - n))
      ensures r.Done? && (n + Min(cnt, f.inode.size - n)) % BLOCK_SIZE == 0 ==>
        r.value.value == Content(disk, blocks, f.inode.size)[n..n + Min(cnt, f.inode.size - n)]
    {
      SeekTo(f, n, fromEnd);
      ReadIsSliceIff(disk, blocks, f.inode.size, n, Min(cnt, f.inode.size - n));
      r := FileRead(f, cnt, blocks);
    }

    /** The loop of inode_release that frees blocks, up to index 138 */
    method FreeBlocks(all: seq<nat>, ghost table: nat, ghost blocks: seq<nat>)
      requires |all| == MAX_BLOCKS && AllAgree(all, blocks, 0) && |blocks| <= MAX_BLOCKS
      requires forall lba :: lba in blocks ==> ds < lba < ds + |bits|
      modifies this`bits
      ensures Cleared(ds, old(bits), bits, Owned(0, Released(blocks)))
    {
      var blockIdx := 0;
      while blockIdx < READ_LIMIT
        invariant 0 <= blockIdx <= READ_LIMIT
        invariant Cleared(ds, old(bits), bits, Owned(0, FirstOf(blocks, blockIdx)))
      {
        assert blockIdx < |blocks| ==> blocks[blockIdx] in blocks;
        if all[blockIdx] != 0 {
          assert all[blockIdx] == blocks[blockIdx] && blocks[blockIdx] in blocks;
          var idx := all[blockIdx] - ds;
          assert idx > 0;
          bits := bits[idx := false];
          assert blocks[..blockIdx + 1] == blocks[..blockIdx] + [blocks[blockIdx]];
        }
        blockIdx := blockIdx + 1;
      }
    }

    /** inode_release, as far as the data blocks go */
    method InodeRelease(inode: Inode, ghost blocks: seq<nat>)
      requires FileOk(ds, disk, bits, inode.sectors, blocks)
      modifies this`bits
      ensures Cleared(ds, old(bits), bits, Owned(inode.sectors[DIRECT], Released(blocks)))
    {
      var table := inode.sectors[DIRECT];
      var all := inode.sectors[..DIRECT] + seq(MAX_BLOCKS - DIRECT, _ => 0);
      forall lba | lba in blocks ensures ds < lba < ds + |bits| {
        assert lba in Owned(table, blocks);
      }
      if table != 0 {
        assert table in Owned(table, blocks);
        all := all[..DIRECT] + Words(disk[table]);
        assert table - ds > 0;
        bits := bits[table - ds := false];
      }
      FreeBlocks(all, table, blocks);
    }
  }
}
