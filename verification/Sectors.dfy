/** The disk as an array of sectors, and the 32-bit little-endian words that a sector holds. */
module Sectors {
  import opened Machine

  const BLOCK_SIZE: nat := 512
  const WORDS: nat := 128

  type byte = b: int | 0 <= b < 256
  type Sector = s: seq<byte> | |s| == BLOCK_SIZE witness seq(BLOCK_SIZE, _ => 0)
  type Disk = seq<Sector>

  function ZeroSector(): Sector {
    seq(BLOCK_SIZE, _ => 0)
  }

  /** Byte `k` of a word, as the processor stores it. */
  function ByteOf(w: nat, k: nat): byte {
    if k == 0 then w % 0x100 else if k == 1 then w / 0x100 % 0x100 else if k == 2 then w / 0x1_0000 % 0x100 else w / 0x100_0000 % 0x100
  }

  function WordOf(a: byte, b: byte, c: byte, d: byte): (w: nat)
    ensures w < U32
  {
    a + 0x100 * b + 0x1_0000 * c + 0x100_0000 * d
  }

  /** A sector read into an array of words. */
  function Words(s: Sector): (ws: seq<nat>)
    ensures |ws| == WORDS && forall i :: 0 <= i < WORDS ==> ws[i] < U32
  {
    seq(WORDS, i requires 0 <= i < WORDS => WordOf(s[4 * i], s[4 * i + 1], s[4 * i + 2], s[4 * i + 3]))
  }

  /** An array of words written to a sector. */
  function FromWords(ws: seq<nat>): (s: Sector)
    requires |ws| == WORDS
  {
    seq(BLOCK_SIZE, k requires 0 <= k < BLOCK_SIZE => ByteOf(ws[k / 4], k % 4))
  }

  lemma WordRoundTrip(w: nat)
    requires w < U32
    ensures WordOf(ByteOf(w, 0), ByteOf(w, 1), ByteOf(w, 2), ByteOf(w, 3)) == w
    ensures ByteOf(w, 0) + 0x100 * (ByteOf(w, 1) + 0x100 * (ByteOf(w, 2) + 0x100 * ByteOf(w, 3))) == w
  {
    var q1 := w / 0x100;
    var q2 := q1 / 0x100;
    var q3 := q2 / 0x100;
    assert w == 0x100 * q1 + ByteOf(w, 0) && q1 == 0x100 * q2 + ByteOf(w, 1);
    assert w / 0x1_0000 == q2;
    assert w / 0x100_0000 == q3;
    assert q2 == 0x100 * q3 + ByteOf(w, 2) && q3 == ByteOf(w, 3);
  }

  lemma WordBack(ws: seq<nat>, i: nat)
    requires |ws| == WORDS && i < WORDS && ws[i] < U32
    ensures Words(FromWords(ws))[i] == ws[i]
  {
    var s := FromWords(ws);
    assert s[4 * i] == ByteOf(ws[i], 0) && s[4 * i + 1] == ByteOf(ws[i], 1);
    assert s[4 * i + 2] == ByteOf(ws[i], 2) && s[4 * i + 3] == ByteOf(ws[i], 3);
    WordRoundTrip(ws[i]);
  }

  /** What is written as words is read back as the same words. */
  lemma WordsOfBytes(ws: seq<nat>)
    requires |ws| == WORDS && forall i :: 0 <= i < WORDS ==> ws[i] < U32
    ensures Words(FromWords(ws)) == ws
  {
    forall i | 0 <= i < WORDS ensures Words(FromWords(ws))[i] == ws[i] {
      WordBack(ws, i);
    }
  }
}
