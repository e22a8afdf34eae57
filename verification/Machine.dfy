/** Types shared by every component of the kernel model. */
module Machine {

  datatype Option<+T> = None | Some(value: T)

  /** The result of kernel code whose ASSERT is compiled in: it either comes back
      with a value, or a failed ASSERT (or a PANIC) stops the machine for good. */
  datatype Outcome<+T> = Done(value: T) | Halt

  const U32: int := 0x1_0000_0000

  /** The direct entries of an inode, and the inodes of a partition */
  const DIRECT: nat := 12
  const MAX_INODES: nat := 4096

  /** No element occurs twice. */
  ghost predicate Distinct<T>(s: seq<T>) {
    forall i, j :: 0 <= i < j < |s| ==> s[i] != s[j]
  }

  lemma DistinctAppend<T>(s: seq<T>, x: T)
    requires Distinct(s) && x !in s
    ensures Distinct(s + [x])
  {
  }

  lemma DistinctPush<T>(s: seq<T>, x: T)
    requires Distinct(s) && x !in s
    ensures Distinct([x] + s)
  {
  }

  lemma DistinctPop<T>(s: seq<T>)
    requires Distinct(s) && s != []
    ensures Distinct(s[1..]) && s[0] !in s[1..]
    ensures forall x :: x in s[1..] <==> x in s && x != s[0]
  {
    forall x | x in s && x != s[0]
      ensures x in s[1..]
    {
      var i :| 0 <= i < |s| && s[i] == x;
      assert s[1..][i - 1] == x;
    }
  }

  /** The sequence without the element `x` (list_remove of an element found by address). */
  function Without<T(==,!new)>(s: seq<T>, x: T): (r: seq<T>)
    ensures forall y :: y in r <==> y in s && y != x
    ensures |r| <= |s|
  {
    if s == [] then []
    else
      var rest := Without(s[1..], x);
      assert s == [s[0]] + s[1..];
      if s[0] == x then rest else [s[0]] + rest
  }

  lemma {:induction false} DistinctWithout<T(!new)>(s: seq<T>, x: T)
    requires Distinct(s)
    ensures Distinct(Without(s, x))
  {
    if s != [] {
      DistinctWithout(s[1..], x);
      DistinctPop(s);
      if s[0] != x {
        DistinctPush(Without(s[1..], x), s[0]);
      }
    }
  }
}
