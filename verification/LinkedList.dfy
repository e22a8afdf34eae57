/** The doubly linked list of src/lib/kernel/list.c, whose nodes are embedded in their owners and
    whose two ends are fixed nodes. */
module LinkedList {
  import opened Machine

  class Elem {
    var prev: Elem?
    var next: Elem?

    constructor ()
      ensures prev == null && next == null
    {
      prev, next := null, null;
    }
  }

  /** `b` follows `a`. */
  predicate Joined(a: Elem, b: Elem)
    reads a, b
  {
    a.next == b && b.prev == a
  }

  /** The elements between the two ends of a chain */
  function Inner<T>(c: seq<T>): seq<T>
    requires |c| >= 2
  {
    c[1..|c| - 1]
  }

  lemma SplicedIn<T>(c: seq<T>, k: nat, x: T)
    requires k + 1 < |c| && Distinct(c) && x !in c
    ensures var c' := c[..k + 1] + [x] + c[k + 1..]; Distinct(c') && Inner(c') == Inner(c)[..k] + [x] + Inner(c)[k..]
  {
    var c' := c[..k + 1] + [x] + c[k + 1..];
    var want := Inner(c)[..k] + [x] + Inner(c)[k..];
    forall i | 0 <= i < |c'| ensures c'[i] == if i <= k then c[i] else if i == k + 1 then x else c[i - 1] {
    }
    forall i | 0 <= i < |want| ensures want[i] == c'[i + 1] {
    }
    assert |Inner(c')| == |want|;
  }

  lemma SplicedOut<T>(c: seq<T>, k: nat)
    requires k + 2 < |c| && Distinct(c)
    ensures var c' := c[..k + 1] + c[k + 2..]; Distinct(c') && Inner(c') == Inner(c)[..k] + Inner(c)[k + 1..]
  {
    var c' := c[..k + 1] + c[k + 2..];
    var want := Inner(c)[..k] + Inner(c)[k + 1..];
    forall i | 0 <= i < |c'| ensures c'[i] == if i <= k then c[i] else c[i + 1] {
    }
    forall i | 0 <= i < |want| ensures want[i] == c'[i + 1] {
    }
    assert |Inner(c')| == |want|;
  }

  class List {
    const head: Elem
    const tail: Elem

    /** All nodes, from `head` to `tail` */
    ghost var chain: seq<Elem>

    /** Neighbours point at each other, and no node comes twice. */
    ghost predicate Valid()
      reads this, chain
    {
      && |chain| >= 2 && chain[0] == head && chain[|chain| - 1] == tail && Distinct(chain)
      && forall i :: 0 <= i < |chain| - 1 ==> Joined(chain[i], chain[i + 1])
    }

    /** The elements that the list stands for */
    ghost function Elems(): seq<Elem>
      requires |chain| >= 2
      reads this
    {
      Inner(chain)
    }

    /** list_init */
    constructor ()
      ensures Valid() && Elems() == [] && fresh(head) && fresh(tail)
    {
      head := new Elem();
      tail := new Elem();
      new;
      chain := [head, tail];
      head.next, tail.prev := tail, head;
    }

    /** list_insert_before, where `before` is the node behind the first `k` elements */
    method InsertBefore(before: Elem, elem: Elem, ghost k: nat)
      requires Valid() && elem !in chain && k + 1 < |chain| && before == chain[k + 1]
      modifies this`chain, chain, elem
      ensures Valid() && chain == old(chain)[..k + 1] + [elem] + old(chain)[k + 1..]
      ensures Elems() == old(Elems())[..k] + [elem] + old(Elems())[k..]
    {
      ghost var c := chain;
      assert Joined(c[k], c[k + 1]);
      var p := before.prev;
      p.next := elem;
      elem.prev := p;
      elem.next := before;
      before.prev := elem;
      chain := c[..k + 1] + [elem] + c[k + 1..];
      SplicedIn(c, k, elem);
      forall i | 0 <= i < |chain| - 1 ensures Joined(chain[i], chain[i + 1]) {
        if i < k {
          assert old(Joined(c[i], c[i + 1]));
        } else if i > k + 1 {
          assert chain[i] == c[i - 1] && chain[i + 1] == c[i];
          assert old(Joined(c[i - 1], c[i]));
        }
      }
    }

    /** list_push */
    method Push(elem: Elem)
      requires Valid() && elem !in chain
      modifies this`chain, chain, elem
      ensures Valid() && Elems() == [elem] + old(Elems())
    {
      assert Joined(chain[0], chain[1]);
      InsertBefore(head.next, elem, 0);
    }

    /** list_append */
    method Append(elem: Elem)
      requires Valid() && elem !in chain
      modifies this`chain, chain, elem
      ensures Valid() && Elems() == old(Elems()) + [elem]
    {
      InsertBefore(tail, elem, |chain| - 2);
    }

    /** list_remove of the element behind the first `k`; its own pointers stay as they are */
    method Remove(elem: Elem, ghost k: nat)
      requires Valid() && k + 2 < |chain| && elem == Elems()[k]
      modifies this`chain, chain
      ensures Valid() && Elems() == old(Elems())[..k] + old(Elems())[k + 1..]
      ensures elem.prev == old(elem.prev) && elem.next == old(elem.next)
    {
      ghost var c := chain;
      assert Joined(c[k], c[k + 1]) && Joined(c[k + 1], c[k + 2]);
      assert c[k] != c[k + 1] && c[k + 1] != c[k + 2];
      elem.prev.next := elem.next;
      elem.next.prev := elem.prev;
      chain := c[..k + 1] + c[k + 2..];
      SplicedOut(c, k);
      forall i | 0 <= i < |chain| - 1 ensures Joined(chain[i], chain[i + 1]) {
        if i < k {
          assert old(Joined(c[i], c[i + 1]));
        } else if i > k {
          assert chain[i] == c[i + 1] && chain[i + 1] == c[i + 2];
          assert old(Joined(c[i + 1], c[i + 2]));
        }
      }
    }

    /** list_empty */
    method Empty() returns (empty: bool)
      requires Valid()
      ensures empty <==> Elems() == []
    {
      assert Joined(chain[0], chain[1]);
      return head.next == tail;
    }

    /** list_pop */
    method Pop() returns (elem: Elem)
      requires Valid() && Elems() != []
      modifies this`chain, chain
      ensures Valid() && elem == old(Elems())[0] && Elems() == old(Elems())[1..]
    {
      assert Joined(chain[0], chain[1]);
      elem := head.next;
      Remove(elem, 0);
    }

    /** list_len */
    method Len() returns (len: nat)
      requires Valid()
      ensures len == |Elems()|
    {
      assert Joined(chain[0], chain[1]);
      var elem := head.next;
      len := 0;
      while elem != tail
        invariant 0 <= len <= |chain| - 2 && elem == chain[len + 1]
        decreases |chain| - len
      {
        assert Joined(chain[len + 1], chain[len + 2]);
        len := len + 1;
        elem := elem.next;
      }
    }

    /** elem_find */
    method Find(obj: Elem) returns (found: bool)
      requires Valid() && obj != tail && obj != head
      ensures found <==> obj in Elems()
    {
      assert Joined(chain[0], chain[1]);
      var elem := head.next;
      ghost var k := 1;
      while elem != tail
        invariant 1 <= k <= |chain| - 1 && elem == chain[k] && obj !in chain[..k]
        decreases |chain| - k
      {
        if elem == obj {
          assert Elems()[k - 1] == obj;
          return true;
        }
        assert Joined(chain[k], chain[k + 1]);
        elem := elem.next;
        k := k + 1;
      }
      return false;
    }
  }
}
