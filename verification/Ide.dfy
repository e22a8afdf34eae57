/** The disk driver: src/device/ide.c. Long transfers are cut into commands of at most 256
    sectors, and each command is answered by an interrupt. */
module Ide {
  import opened Machine
  import opened Sectors

  const MAX_LBA: nat := 163839
  const CHUNK: nat := 256

  // ----- the command handshake, under every interleaving with interrupts -----

  /** Where the driver is in a command: nothing under way, expecting_intr set, command sent,
      data moved before the wait (writing), or waited and data not yet moved (reading). */
  datatype Phase = Quiet | Armed(write: bool) | Sent(write: bool) | Moved | Answered

  /** The channel, with the commands begun, the answers given and the answers consumed so far. */
  datatype Channel = Channel(expecting: bool, done: nat, phase: Phase, begun: nat, ups: nat, downs: nat)

  datatype Step = Arm(write: bool) | Send | Transfer | Down | Interrupt

  function Start(): Channel {
    Channel(false, 0, Quiet, 0, 0, 0)
  }

  predicate Enabled(c: Channel, step: Step) {
    match step
    case Arm(_) => c.phase.Quiet?
    case Send => c.phase.Armed?
    case Transfer => c.phase == Sent(true) || c.phase.Answered?
    case Down => (c.phase == Sent(false) || c.phase.Moved?) && c.done > 0
    case Interrupt => true
  }

  /** intr_hd_handler; its sema_up is the one use of the ASSERT that `done` is 0 */
  function Handle(c: Channel): Channel {
    if c.expecting then c.(expecting := false, done := c.done + 1, ups := c.ups + 1) else c
  }

  function Next(c: Channel, step: Step): Channel
    requires Enabled(c, step)
  {
    match step
    case Arm(write) => c.(expecting := true, phase := Armed(write), begun := c.begun + 1)
    case Send => c.(phase := Sent(c.phase.write))
    case Transfer => c.(phase := if c.phase.Sent? then Moved else Quiet)
    case Down => c.(done := c.done - 1, downs := c.downs + 1, phase := if c.phase.Moved? then Quiet else Answered)
    case Interrupt => Handle(c)
  }

  /** The ASSERT of sema_up holds should an interrupt come now. */
  predicate UpIsSafe(c: Channel) {
    c.expecting ==> c.done == 0
  }

  predicate Inv(c: Channel) {
    && (if c.expecting then 1 else 0) + c.done == (if c.phase.Quiet? || c.phase.Answered? then 0 else 1)
    && c.begun == c.ups + (if c.expecting then 1 else 0) && c.ups == c.downs + c.done
  }

  predicate IsRun(cs: seq<Channel>, steps: seq<Step>) {
    |cs| == |steps| + 1 && forall i :: 0 <= i < |steps| ==> Enabled(cs[i], steps[i]) && cs[i + 1] == Next(cs[i], steps[i])
  }

  lemma {:induction false} RunInv(cs: seq<Channel>, steps: seq<Step>, k: nat)
    requires IsRun(cs, steps) && cs[0] == Start() && k <= |steps|
    ensures Inv(cs[k])
  {
    if k > 0 {
      RunInv(cs, steps, k - 1);
      assert Enabled(cs[k - 1], steps[k - 1]) && cs[k] == Next(cs[k - 1], steps[k - 1]);
    }
  }

  /** In every state of every run, spurious interrupts included, sema_up's ASSERT cannot fail,
      a command has had at most one sema_up, and a finished one exactly one. */
  lemma RunsAreSafe(cs: seq<Channel>, steps: seq<Step>, k: nat)
    requires IsRun(cs, steps) && cs[0] == Start() && k <= |steps|
    ensures UpIsSafe(cs[k]) && cs[k].done <= 1 && cs[k].ups <= cs[k].begun <= cs[k].ups + 1
    ensures cs[k].phase.Quiet? || cs[k].phase.Answered? ==> cs[k].ups == cs[k].begun == cs[k].downs && !cs[k].expecting && cs[k].done == 0
  {
    RunInv(cs, steps, k);
  }

  // ----- the registers -----

  /** What select_sector writes, each value cut to 8 bits */
  datatype Registers = Registers(count: byte, low: byte, mid: byte, high: byte, dev: byte)

  function Select(dev: nat, lba: nat, cnt: nat): Registers {
    Registers(cnt % 256, lba % 256, lba / 0x100 % 256, lba / 0x1_0000 % 256, (0xe0 + (if dev == 1 then 0x10 else 0) + lba / 0x100_0000) % 256)
  }

  /** What the controller makes of them: a count of 0 stands for 256 */
  function SectorsAsked(r: Registers): nat {
    if r.count == 0 then CHUNK else r.count
  }

  function LbaAsked(r: Registers): nat {
    r.low + 0x100 * r.mid + 0x1_0000 * r.high + 0x100_0000 * (r.dev % 16)
  }

  /** The controller is asked for the chunk that the driver means. */
  lemma AskedRight(dev: nat, lba: nat, cnt: nat)
    requires lba <= MAX_LBA && 1 <= cnt <= CHUNK
    ensures LbaAsked(Select(dev, lba, cnt)) == lba && SectorsAsked(Select(dev, lba, cnt)) == cnt
    ensures Select(dev, lba, cnt).dev / 16 % 2 == if dev == 1 then 1 else 0
  {
  }

  // ----- transfers -----

  /** The start of the last chunk */
  function LastChunk(lba: nat, cnt: nat): nat
    requires cnt > 0
  {
    lba + CHUNK * ((cnt - 1) / CHUNK)
  }

  /** The controller's part of a read: the sectors that its registers name */
  function Delivered(disk: Disk, r: Registers): seq<Sector>
    requires LbaAsked(r) + SectorsAsked(r) <= |disk|
  {
    disk[LbaAsked(r)..LbaAsked(r) + SectorsAsked(r)]
  }

  function Stored(disk: Disk, r: Registers, data: seq<Sector>): Disk
    requires LbaAsked(r) + SectorsAsked(r) <= |disk| && |data| == SectorsAsked(r)
  {
    disk[..LbaAsked(r)] + data + disk[LbaAsked(r) + SectorsAsked(r)..]
  }

  class Drive {
    const dev: nat
    var disk: Disk

    constructor (dev: nat, disk: Disk)
      ensures this.dev == dev && this.disk == disk
    {
      this.dev, this.disk := dev, disk;
    }

    /** ide_read: the chunks together are one flat copy */
    method IdeRead(lba: nat, cnt: nat) returns (r: Outcome<seq<Sector>>)
      requires lba + cnt <= |disk|
      ensures r.Halt? <==> cnt == 0 || lba + (cnt - 1) / CHUNK * CHUNK > MAX_LBA
      ensures cnt > 0 && lba + cnt <= MAX_LBA + 1 ==> r.Done?
      ensures r.Done? ==> r.value == disk[lba..lba + cnt]
    {
      if !(lba <= MAX_LBA) || !(cnt > 0) {
        return Halt;
      }
      var buf: seq<Sector> := [];
      var done := 0;
      while done < cnt
        invariant 0 <= done <= cnt && buf == disk[lba..lba + done]
        invariant done < cnt ==> done % CHUNK == 0
        invariant done == cnt ==> LastChunk(lba, cnt) <= MAX_LBA
      {
        var op := if done + CHUNK <= cnt then CHUNK else cnt - done;
        ChunkAt(lba, cnt, done, op);
        if !(lba + done <= MAX_LBA) {
          return Halt;
        }
        AskedRight(dev, lba + done, op);
        var got := Delivered(disk, Select(dev, lba + done, op));
        assert disk[lba..lba + done] + disk[lba + done..lba + done + op] == disk[lba..lba + done + op];
        buf := buf + got;
        done := done + op;
      }
      return Done(buf);
    }

    method WriteChunk(ghost disk0: Disk, lba: nat, buf: seq<Sector>, done: nat, op: nat)
      requires lba + |buf| <= |disk0| && done + op <= |buf| && lba + done <= MAX_LBA && 1 <= op <= CHUNK
      requires disk == disk0[..lba] + buf[..done] + disk0[lba + done..]
      modifies this
      ensures disk == disk0[..lba] + buf[..done + op] + disk0[lba + done + op..]
    {
      AskedRight(dev, lba + done, op);
      StoreNext(disk0, disk, lba, buf, done, op);
      disk := Stored(disk, Select(dev, lba + done, op), buf[done..done + op]);
    }

    /** ide_write: the chunks together replace one range of sectors and no other */
    method IdeWrite(lba: nat, buf: seq<Sector>) returns (halted: bool)
      requires lba + |buf| <= |disk|
      modifies this
      ensures halted <==> |buf| == 0 || lba + (|buf| - 1) / CHUNK * CHUNK > MAX_LBA
      ensures |buf| > 0 && lba + |buf| <= MAX_LBA + 1 ==> !halted
      ensures !halted ==> disk == old(disk)[..lba] + buf + old(disk)[lba + |buf|..]
    {
      var cnt := |buf|;
      if !(lba <= MAX_LBA) || !(cnt > 0) {
        return true;
      }
      var done := 0;
      while done < cnt
        invariant 0 <= done <= cnt && disk == old(disk)[..lba] + buf[..done] + old(disk)[lba + done..]
        invariant done < cnt ==> done % CHUNK == 0
        invariant done == cnt ==> LastChunk(lba, cnt) <= MAX_LBA
      {
        var op := if done + CHUNK <= cnt then CHUNK else cnt - done;
        ChunkAt(lba, cnt, done, op);
        if !(lba + done <= MAX_LBA) {
          return true;
        }
        WriteChunk(old(disk), lba, buf, done, op);
        done := done + op;
      }
      assert buf[..cnt] == buf;
      return false;
    }
  }

  /** All chunks but the last are full. */
  lemma ChunkAt(lba: nat, cnt: nat, done: nat, op: nat)
    requires done < cnt && done % CHUNK == 0 && op == if done + CHUNK <= cnt then CHUNK else cnt - done
    ensures 1 <= op <= CHUNK && lba + done <= LastChunk(lba, cnt)
    ensures done + op < cnt ==> (done + op) % CHUNK == 0
    ensures done + op == cnt ==> lba + done == LastChunk(lba, cnt)
  {
  }

  lemma StoreNext(disk0: Disk, disk: Disk, lba: nat, buf: seq<Sector>, done: nat, op: nat)
    requires lba + |buf| <= |disk0| && done + op <= |buf| && disk == disk0[..lba] + buf[..done] + disk0[lba + done..]
    ensures |disk| == |disk0| &&
      disk[..lba + done] + buf[done..done + op] + disk[lba + done + op..] == disk0[..lba] + buf[..done + op] + disk0[lba + done + op..]
  {
    assert disk[..lba + done] == disk0[..lba] + buf[..done];
    assert disk[lba + done + op..] == disk0[lba + done + op..];
    assert buf[..done + op] == buf[..done] + buf[done..done + op];
  }
}
