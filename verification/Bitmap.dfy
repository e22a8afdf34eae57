/** src/lib/kernel/bitmap.c: a map of one bit per resource, kept in bytes. */
module Bitmap {
  import opened Machine

  // ----- one byte -----

  /** BITMAP_MASK << k, truncated to a byte. */
  function Mask(k: nat): bv8
    requires k < 8
  {
    if k == 0 then 0x01 else if k == 1 then 0x02 else if k == 2 then 0x04 else if k == 3 then 0x08
    else if k == 4 then 0x10 else if k == 5 then 0x20 else if k == 6 then 0x40 else 0x80
  }

  /** BITMAP_MASK shifted left: the lowest bit of a byte comes first. */
  lemma MaskShifts(k: nat)
    requires k < 7
    ensures Mask(0) == 1 && Mask(k + 1) == Mask(k) << 1
  {
  }

  predicate BitOf(b: bv8, k: nat)
    requires k < 8
  {
    b & Mask(k) != 0
  }

  /** The byte bitmap_set stores. */
  function WithBit(b: bv8, k: nat, value: bool): bv8
    requires k < 8
  {
    if value then b | Mask(k) else b & !Mask(k)
  }

  lemma WithBitAt(b: bv8, k: nat, value: bool, j: nat)
    requires k < 8 && j < 8
    ensures BitOf(WithBit(b, k, value), j) == if j == k then value else BitOf(b, j)
  {
  }

  lemma FullByte(b: bv8)
    ensures b == 0xff <==> forall k: nat :: k < 8 ==> BitOf(b, k)
  {
    if forall k: nat :: k < 8 ==> BitOf(b, k) {
      assert BitOf(b, 0) && BitOf(b, 1) && BitOf(b, 2) && BitOf(b, 3);
      assert BitOf(b, 4) && BitOf(b, 5) && BitOf(b, 6) && BitOf(b, 7);
    }
  }

  // ----- the map as a sequence of bits -----

  /** The abstract value of a bitmap. */
  function Bits(bytes: seq<bv8>): (r: seq<bool>)
    ensures |r| == 8 * |bytes|
    ensures forall i :: 0 <= i < |r| ==> r[i] == BitOf(bytes[i / 8], i % 8)
  {
    seq(8 * |bytes|, i requires 0 <= i < 8 * |bytes| => BitOf(bytes[i / 8], i % 8))
  }

  lemma BitsWithBit(bytes: seq<bv8>, index: nat, value: bool)
    requires index < 8 * |bytes|
    ensures Bits(bytes[index / 8 := WithBit(bytes[index / 8], index % 8, value)]) == Bits(bytes)[index := value]
  {
    var b := bytes[index / 8];
    var after := bytes[index / 8 := WithBit(b, index % 8, value)];
    forall i | 0 <= i < 8 * |bytes|
      ensures Bits(after)[i] == Bits(bytes)[index := value][i]
    {
      assert Bits(after)[i] == BitOf(after[i / 8], i % 8);
      WithBitAt(b, index % 8, value, i % 8);
    }
  }

  /** Bits `start .. start + cnt` lie inside the map and are all clear. */
  ghost predicate FreeRun(bits: seq<bool>, start: int, cnt: nat) {
    0 <= start && start + cnt <= |bits| && forall i :: start <= i < start + cnt ==> !bits[i]
  }

  ghost predicate LowestRun(bits: seq<bool>, start: int, cnt: nat) {
    FreeRun(bits, start, cnt) && forall j :: 0 <= j < start ==> !FreeRun(bits, j, cnt)
  }

  ghost predicate NoRun(bits: seq<bool>, cnt: nat) {
    forall j :: !FreeRun(bits, j, cnt)
  }

  predicate AllSet(bits: seq<bool>) {
    forall i :: 0 <= i < |bits| ==> bits[i]
  }

  predicate IsFirstClear(bits: seq<bool>, first: nat) {
    first < |bits| && !bits[first] && forall i :: 0 <= i < first ==> bits[i]
  }

  lemma {:induction false} FirstClearExists(bits: seq<bool>, k: nat)
    requires k < |bits| && !bits[k]
    ensures exists first: nat :: IsFirstClear(bits, first)
  {
    if !IsFirstClear(bits, k) {
      var i :| 0 <= i < k && !bits[i];
      FirstClearExists(bits, i);
    }
  }

  /** The lowest clear bit, -1 when there is none. */
  ghost function FirstClear(bits: seq<bool>): (r: int)
    ensures r == -1 <==> AllSet(bits)
    ensures r != -1 ==> 0 <= r && IsFirstClear(bits, r)
  {
    if AllSet(bits) then -1
    else
      var k :| 0 <= k < |bits| && !bits[k];
      FirstClearExists(bits, k);
      var first: nat :| IsFirstClear(bits, first);
      first
  }

  /** What bitmap_scan answers. `past` is the bit that follows the map in memory, which a
      scan for more than one bit also looks at. A full map fails an ASSERT. */
  ghost predicate ScanAnswer(bits: seq<bool>, past: bool, cnt: nat, r: Outcome<int>)
    requires cnt >= 1
  {
    var looked := if cnt == 1 then bits else bits + [past];
    match r
    case Halt => AllSet(bits)
    case Done(i) => !AllSet(bits) && if i == -1 then NoRun(looked, cnt) else LowestRun(looked, i, cnt)
  }

  /** Exactly `count` clear bits stand right before position `n`. */
  ghost predicate ClearTail(bits: seq<bool>, n: nat, count: nat) {
    count <= n <= |bits| &&
    (forall i :: n - count <= i < n ==> !bits[i]) &&
    (count < n ==> bits[n - count - 1])
  }

  ghost predicate NoRunBefore(bits: seq<bool>, n: nat, cnt: nat) {
    forall j :: 0 <= j && j + cnt <= n ==> !FreeRun(bits, j, cnt)
  }

  /** One round of the counting loop of bitmap_scan. */
  lemma ScanStep(bits: seq<bool>, n: nat, count: nat, cnt: nat, count': nat)
    requires n < |bits| && count < cnt && ClearTail(bits, n, count) && NoRunBefore(bits, n, cnt)
    requires count' == if bits[n] then 0 else count + 1
    ensures ClearTail(bits, n + 1, count')
    ensures count' < cnt ==> NoRunBefore(bits, n + 1, cnt)
    ensures count' == cnt ==> LowestRun(bits, n + 1 - cnt, cnt)
  {
    if count' < cnt && FreeRun(bits, n + 1 - cnt, cnt) {
      assert false;
    }
  }

  lemma ScanStart(bits: seq<bool>, first: nat, cnt: nat)
    requires first < |bits| && cnt >= 2 && !bits[first] && forall i :: 0 <= i < first ==> bits[i]
    ensures ClearTail(bits, first + 1, 1) && NoRunBefore(bits, first + 1, cnt)
  {
    forall j | 0 <= j && j + cnt <= first + 1
      ensures !FreeRun(bits, j, cnt)
    {
      assert bits[j];
    }
  }

  /** The counting loop of bitmap_scan as a function: `count` clear bits stand right
      before position `n` and the scan goes on from there. */
  function Search(bits: seq<bool>, cnt: nat, n: nat, count: nat): int
    requires n <= |bits|
    decreases |bits| - n
  {
    if n == |bits| then -1
    else
      var count' := if bits[n] then 0 else count + 1;
      if count' == cnt then n + 1 - cnt else Search(bits, cnt, n + 1, count')
  }

  lemma {:induction false} SearchFinds(bits: seq<bool>, cnt: nat, n: nat, count: nat)
    requires n <= |bits| && count < cnt && ClearTail(bits, n, count) && NoRunBefore(bits, n, cnt)
    ensures var r := Search(bits, cnt, n, count); if r == -1 then NoRun(bits, cnt) else LowestRun(bits, r, cnt)
    decreases |bits| - n
  {
    if n < |bits| {
      var count' := if bits[n] then 0 else count + 1;
      ScanStep(bits, n, count, cnt, count');
      if count' != cnt {
        SearchFinds(bits, cnt, n + 1, count');
      }
    }
  }

  lemma OneBitAnswers(bits: seq<bool>, past: bool, first: nat)
    requires IsFirstClear(bits, first)
    ensures ScanAnswer(bits, past, 1, Done(first))
  {
    assert forall j :: 0 <= j < first && FreeRun(bits, j, 1) ==> !bits[j];
  }

  lemma SearchAnswers(bits: seq<bool>, past: bool, cnt: nat, first: nat)
    requires cnt >= 2 && IsFirstClear(bits, first)
    ensures ScanAnswer(bits, past, cnt, Done(Search(bits + [past], cnt, first + 1, 1)))
  {
    ScanStart(bits + [past], first, cnt);
    SearchFinds(bits + [past], cnt, first + 1, 1);
  }

  /** bitmap_scan as a function of the map, the foreign bit behind it, and the count. */
  ghost function ScanFor(bits: seq<bool>, past: bool, cnt: nat): Outcome<int> {
    var first := FirstClear(bits);
    if first == -1 then Halt
    else if cnt == 1 then Done(first)
    else Done(Search(bits + [past], cnt, first + 1, 1))
  }

  lemma ScanForAnswers(bits: seq<bool>, past: bool, cnt: nat)
    requires cnt >= 1
    ensures ScanAnswer(bits, past, cnt, ScanFor(bits, past, cnt))
  {
    var first := FirstClear(bits);
    if first != -1 {
      if cnt == 1 { OneBitAnswers(bits, past, first); } else { SearchAnswers(bits, past, cnt, first); }
    }
  }

  class ByteMap {
    var bits: array<bv8>

    constructor (len: nat)
      ensures fresh(bits) && bits.Length == len
      ensures Bits(bits[..]) == seq(8 * len, _ => false)
    {
      bits := new bv8[len](_ => 0);
    }

    /** bitmap_scan_test */
    method ScanTest(index: nat) returns (r: bool)
      requires index < 8 * bits.Length
      ensures r == Bits(bits[..])[index]
    {
      r := bits[index / 8] & Mask(index % 8) != 0;
    }

    /** bitmap_set */
    method Set(index: nat, value: bool)
      requires index < 8 * bits.Length
      modifies bits
      ensures Bits(bits[..]) == old(Bits(bits[..]))[index := value]
    {
      var byteIndex, bitOdd := index / 8, index % 8;
      ghost var before := bits[..];
      if value {
        bits[byteIndex] := bits[byteIndex] | Mask(bitOdd);
      } else {
        bits[byteIndex] := bits[byteIndex] & !Mask(bitOdd);
      }
      assert bits[byteIndex] == WithBit(before[byteIndex], bitOdd, value);
      assert bits[..] == before[byteIndex := bits[byteIndex]];
      BitsWithBit(before, index, value);
    }

    /** The first half of bitmap_scan: the lowest clear bit. */
    method FirstFree() returns (first: Option<nat>)
      ensures first == None ==> AllSet(Bits(bits[..]))
      ensures first.Some? ==> first.value < 8 * bits.Length && IsFirstClear(Bits(bits[..]), first.value)
    {
      var idxByte := SkipFull();
      if !(idxByte < bits.Length) {
        return None;
      }
      var idxBit := ClearIn(bits[idxByte]);
      assert forall i :: 8 * idxByte <= i < 8 * idxByte + idxBit ==> Bits(bits[..])[i] == BitOf(bits[idxByte], i - 8 * idxByte);
      return Some(idxByte * 8 + idxBit);
    }

    /** The first byte that is not 0xff */
    method SkipFull() returns (idxByte: nat)
      ensures idxByte <= bits.Length && (idxByte < bits.Length ==> bits[idxByte] != 0xff)
      ensures forall i :: 0 <= i < 8 * idxByte ==> Bits(bits[..])[i]
    {
      idxByte := 0;
      while idxByte < bits.Length && bits[idxByte] == 0xff
        invariant 0 <= idxByte <= bits.Length
        invariant forall i :: 0 <= i < 8 * idxByte ==> Bits(bits[..])[i]
      {
        FullByte(bits[idxByte]);
        assert forall i :: 8 * idxByte <= i < 8 * idxByte + 8 ==> i / 8 == idxByte;
        idxByte := idxByte + 1;
      }
    }

    /** The first clear bit of a byte that is not 0xff */
    method ClearIn(byte: bv8) returns (idxBit: nat)
      requires byte != 0xff
      ensures idxBit < 8 && !BitOf(byte, idxBit) && forall k: nat :: k < idxBit ==> BitOf(byte, k)
    {
      FullByte(byte);
      idxBit := 0;
      while byte & Mask(idxBit) != 0
        invariant 0 <= idxBit < 8 && forall k: nat :: k < idxBit ==> BitOf(byte, k)
        invariant exists k: nat :: idxBit <= k < 8 && !BitOf(byte, k)
        decreases 8 - idxBit
      {
        assert BitOf(byte, idxBit);
        idxBit := idxBit + 1;
      }
    }

    /** bitmap_scan */
    method Scan(cnt: nat, past: bool) returns (r: Outcome<int>)
      ensures r == ScanFor(Bits(bits[..]), past, cnt)
    {
      var first := FirstFree();
      if first == None {
        return Halt;
      }
      assert first.value == FirstClear(Bits(bits[..]));
      if cnt == 1 {
        return Done(first.value);
      }
      r := ScanOn(cnt, past, first.value);
    }

    /** The second half of bitmap_scan: look for a longer run from the first clear bit on. */
    method ScanOn(cnt: nat, past: bool, first: nat) returns (r: Outcome<int>)
      requires cnt != 1
      requires first < 8 * bits.Length
      ensures r == Done(Search(Bits(bits[..]) + [past], cnt, first + 1, 1))
    {
      ghost var looked := Bits(bits[..]) + [past];
      var bitLeft := bits.Length * 8 - first;
      var nextBit := first + 1;
      var count := 1;
      while bitLeft > 0
        invariant nextBit + bitLeft == |looked| && first < nextBit && 0 <= bitLeft
        invariant Search(looked, cnt, nextBit, count) == Search(looked, cnt, first + 1, 1)
        decreases bitLeft
      {
        bitLeft := bitLeft - 1;
        var taken := past;
        if nextBit < 8 * bits.Length {
          taken := ScanTest(nextBit);
        }
        assert taken == looked[nextBit];
        count := if taken then 0 else count + 1;
        if count == cnt {
          return Done(nextBit - cnt + 1);
        }
        nextBit := nextBit + 1;
      }
      return Done(-1);
    }
  }

  /** bitmap_scan for a single bit, on the map as a sequence. */
  method ScanOne(bits: seq<bool>) returns (r: int)
    ensures r == FirstClear(bits)
  {
    var i := 0;
    while i < |bits| && bits[i]
      invariant 0 <= i <= |bits| && forall j :: 0 <= j < i ==> bits[j]
    {
      i := i + 1;
    }
    return if i < |bits| then i else -1;
  }

  /** bitmap_scan, on the map as a sequence. */
  method ScanRun(bits: seq<bool>, past: bool, cnt: nat) returns (r: Outcome<int>)
    ensures r == ScanFor(bits, past, cnt)
  {
    var first := ScanOne(bits);
    if first == -1 {
      r := Halt;
    } else if cnt == 1 {
      r := Done(first);
    } else {
      r := Done(Search(bits + [past], cnt, first + 1, 1));
    }
  }

  // ----- what the callers rely on -----

  lemma RunInLonger(bits: seq<bool>, past: bool, j: int, cnt: nat)
    ensures FreeRun(bits + [past], j, cnt) && j + cnt <= |bits| <==> FreeRun(bits, j, cnt)
  {
    var longer := bits + [past];
    assert longer[..|bits|] == bits;
    if FreeRun(longer, j, cnt) && j + cnt <= |bits| {
      assert forall i :: j <= i < j + cnt ==> bits[i] == longer[i];
    }
  }

  /** A run of `cnt` clear bits anywhere in the map is found, and the lowest one is answered. */
  lemma ScanFindsLowest(bits: seq<bool>, past: bool, cnt: nat, r: Outcome<int>, j: int)
    requires cnt >= 1 && ScanAnswer(bits, past, cnt, r) && FreeRun(bits, j, cnt)
    ensures r.Done? && LowestRun(bits, r.value, cnt)
  {
    assert !bits[j];
    RunInLonger(bits, past, j, cnt);
    RunInLonger(bits, past, r.value, cnt);
    forall k | 0 <= k < r.value ensures !FreeRun(bits, k, cnt) {
      RunInLonger(bits, past, k, cnt);
    }
  }

  /** With no run in the map, the answer strays out of the map exactly when the bits at
      its end are clear and so is the foreign bit behind it; otherwise it is -1. */
  lemma ScanStraysIff(bits: seq<bool>, past: bool, cnt: nat, r: Outcome<int>)
    requires cnt >= 1 && ScanAnswer(bits, past, cnt, r) && NoRun(bits, cnt) && r.Done?
    ensures r.value != -1 <==> cnt >= 2 && !past && FreeRun(bits, |bits| - (cnt - 1), cnt - 1)
    ensures r.value != -1 ==> r.value + cnt == |bits| + 1
  {
    var tail := |bits| - (cnt - 1);
    RunInLonger(bits, past, r.value, cnt);
    RunInLonger(bits, past, tail, cnt - 1);
    if r.value != -1 {
      assert cnt >= 2;
      assert r.value == tail;
      assert (bits + [past])[|bits|] == past;
    } else if cnt >= 2 && !past && FreeRun(bits, tail, cnt - 1) {
      assert FreeRun(bits + [past], tail, cnt);
    }
  }

  /** Setting the `cnt` bits from `start` on, one at a time, as the callers do. */
  function SetRun(bits: seq<bool>, start: nat, cnt: nat, value: bool): (r: seq<bool>)
    requires start + cnt <= |bits|
    ensures |r| == |bits|
    ensures forall i :: 0 <= i < |bits| ==> r[i] == if start <= i < start + cnt then value else bits[i]
  {
    if cnt == 0 then bits else SetRun(bits, start, cnt - 1, value)[start + cnt - 1 := value]
  }

  /** Clearing a run that was free before it was set gives back the original map. */
  lemma SetThenClear(bits: seq<bool>, start: nat, cnt: nat)
    requires FreeRun(bits, start, cnt)
    ensures SetRun(SetRun(bits, start, cnt, true), start, cnt, false) == bits
  {
  }

  /** Two successive allocations never overlap. */
  lemma SuccessiveRunsDisjoint(bits: seq<bool>, a: nat, n: nat, b: nat, m: nat, i: nat)
    requires FreeRun(bits, a, n) && FreeRun(SetRun(bits, a, n, true), b, m)
    requires b <= i < b + m
    ensures !(a <= i < a + n) && !bits[i]
  {
    var after := SetRun(bits, a, n, true);
    assert !after[i];
  }
}
