/** The character queue of src/device/ioqueue.c and the pipes of src/user/pipe.c. */
module IoQueue {
  import opened Machine

  const BUFSIZE: nat := 2048

  /** One slot stays empty, to tell a full ring from an empty one. */
  const CAPACITY: nat := 2047

  function NextPos(pos: nat): nat {
    (pos + 1) % BUFSIZE
  }

  /** Place `i` behind `tail` */
  function Slot(tail: nat, i: nat): (k: nat)
    ensures k < BUFSIZE
  {
    (tail + i) % BUFSIZE
  }

  function Length(head: nat, tail: nat): nat
    requires head < BUFSIZE && tail < BUFSIZE
  {
    if head >= tail then head - tail else BUFSIZE - (tail - head)
  }

  /** The characters from `tail` round to `head` */
  function Held(buf: seq<char>, head: nat, tail: nat): (s: seq<char>)
    requires |buf| == BUFSIZE && head < BUFSIZE && tail < BUFSIZE
    ensures |s| == Length(head, tail)
  {
    seq(Length(head, tail), i requires 0 <= i < Length(head, tail) => buf[Slot(tail, i)])
  }

  lemma PutAppends(buf: seq<char>, head: nat, tail: nat, ch: char)
    requires |buf| == BUFSIZE && head < BUFSIZE && tail < BUFSIZE && NextPos(head) != tail
    ensures Held(buf[head := ch], NextPos(head), tail) == Held(buf, head, tail) + [ch]
  {
    var n := Length(head, tail);
    assert Length(NextPos(head), tail) == n + 1;
    assert Slot(tail, n) == head;
    forall i: nat | i < n ensures Slot(tail, i) != head {
    }
  }

  lemma GetTakesFirst(buf: seq<char>, head: nat, tail: nat)
    requires |buf| == BUFSIZE && head < BUFSIZE && tail < BUFSIZE && head != tail
    ensures Held(buf, head, tail) == [buf[tail]] + Held(buf, head, NextPos(tail))
  {
    var n := Length(head, tail);
    assert Length(head, NextPos(tail)) == n - 1;
    forall i: nat | i < n - 1 ensures Slot(tail, i + 1) == Slot(NextPos(tail), i) {
    }
  }

  class Ring {
    const buf: array<char>
    var head: nat
    var tail: nat

    ghost predicate Valid()
      reads this
    {
      buf.Length == BUFSIZE && head < BUFSIZE && tail < BUFSIZE
    }

    ghost function Contents(): seq<char>
      requires Valid()
      reads this, buf
    {
      Held(buf[..], head, tail)
    }

    /** ioqueue_init */
    constructor ()
      ensures Valid() && fresh(buf) && Contents() == []
    {
      buf := new char[BUFSIZE];
      head, tail := 0, 0;
    }

    /** ioq_full */
    method Full() returns (full: bool)
      requires Valid()
      ensures full <==> |Contents()| == CAPACITY
    {
      return NextPos(head) == tail;
    }

    /** ioq_empty */
    method Empty() returns (empty: bool)
      requires Valid()
      ensures empty <==> Contents() == []
    {
      return head == tail;
    }

    /** ioq_length */
    method IoqLength() returns (len: nat)
      requires Valid()
      ensures len == |Contents()| <= CAPACITY
    {
      return if head >= tail then head - tail else BUFSIZE - (tail - head);
    }

    /** The part of ioq_get_char after its wait; `None` when it would have to wait */
    method GetChar() returns (r: Option<char>)
      requires Valid()
      modifies this`tail
      ensures Valid()
      ensures old(Contents()) == [] ==> r == None && Contents() == []
      ensures old(Contents()) != [] ==> r == Some(old(Contents())[0]) && Contents() == old(Contents())[1..]
    {
      var empty := Empty();
      if empty {
        return None;
      }
      GetTakesFirst(buf[..], head, tail);
      r := Some(buf[tail]);
      tail := NextPos(tail);
    }

    /** The part of ioq_put_char after its wait; not `ok` when it would have to wait */
    method PutChar(ch: char) returns (ok: bool)
      requires Valid()
      modifies this`head, buf
      ensures Valid() && (ok <==> |old(Contents())| < CAPACITY)
      ensures Contents() == if ok then old(Contents()) + [ch] else old(Contents())
    {
      var full := Full();
      if full {
        return false;
      }
      PutAppends(buf[..], head, tail, ch);
      assert buf[..][head := ch] == buf[..head] + [ch] + buf[head + 1..];
      buf[head] := ch;
      head := NextPos(head);
      return true;
    }

    /** pipe_read: the oldest characters, as many as there are and no more than asked for. It
        never has to wait. */
    method PipeRead(cnt: nat) returns (out: seq<char>)
      requires Valid()
      modifies this`tail
      ensures Valid() && out + Contents() == old(Contents())
      ensures |out| == if cnt < |old(Contents())| then cnt else |old(Contents())|
    {
      var len := IoqLength();
      var size := if len > cnt then cnt else len;
      ghost var all := Contents();
      out := [];
      while |out| < size
        invariant Valid() && 0 <= |out| <= size <= |all| && out == all[..|out|] && Contents() == all[|out|..]
      {
        var ch := GetChar();
        out := out + [ch.value];
      }
    }

    /** pipe_write: it counts one free place too many, and so it gets stuck waiting for a
        reader exactly when more is written than the ring can still hold. */
    method PipeWrite(data: seq<char>) returns (written: nat, stuck: bool)
      requires Valid()
      modifies this`head, buf
      ensures Valid() && written <= |data| && Contents() == old(Contents()) + data[..written]
      ensures stuck <==> |data| > CAPACITY - |old(Contents())|
      ensures written == if stuck then CAPACITY - |old(Contents())| else |data|
    {
      var len := IoqLength();
      var size := if BUFSIZE - len > |data| then |data| else BUFSIZE - len;
      written, stuck := 0, false;
      while written < size
        invariant Valid() && 0 <= written <= size && Contents() == old(Contents()) + data[..written]
        invariant |Contents()| == |old(Contents())| + written <= CAPACITY
      {
        var ok := PutChar(data[written]);
        if !ok {
          return written, true;
        }
        assert data[..written + 1] == data[..written] + [data[written]];
        written := written + 1;
      }
    }
  }
}
