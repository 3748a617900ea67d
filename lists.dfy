/** A generic doubly linked list bounded by two sentinel nodes, its forward
    and reverse iterators, and the list algorithms written with them.

    The ghost `chain` is the sequence of nodes from the head sentinel to the
    tail sentinel; `contents` is the sequence of values of the real nodes in
    between. Iterators carry the ghost chain position of the node they sit on. */
module Lists {
  import Gcl
  import opened Seqs
  import Iters

  /** A list cell. Sentinels carry the zero value of T. */
  class Node<T(0)> {
    var value: T
    var next: Node?<T>
    var prev: Node?<T>

    /** A detached cell holding v. */
    constructor (v: T)
      ensures value == v && next == null && prev == null
    {
      value := v;
      next := null;
      prev := null;
    }

    /** A detached cell holding the zero value, used for the sentinels. */
    constructor Sentinel()
      ensures next == null && prev == null
    {
      next := null;
      prev := null;
    }
  }

  class List<T(0)> {
    var head: Node<T>
    var tail: Node<T>
    var size: int
    /** The nodes from head to tail, in link order. */
    ghost var chain: seq<Node<T>>
    /** The values of the real nodes, front to back. */
    ghost var contents: seq<T>
    /** Every node the list has ever linked; a superset of the chain. */
    ghost var Repr: set<Node<T>>

    /** The list invariant: the chain runs from head to tail through linked
        nodes (see LinkedFrom), the ends point nowhere, and size counts the
        real nodes. */
    ghost predicate Valid()
      reads this, Repr
    {
      && 2 <= |chain|
      && chain[0] == head && chain[|chain| - 1] == tail
      && (forall i :: 0 <= i < |chain| ==> chain[i] in Repr)
      && head.prev == null && tail.next == null
      && size == |contents| == |chain| - 2
      && LinkedFrom(0)
    }

    /** From chain position k on, each node's next pointer leads to the
        following node, whose prev pointer leads back, and each real node
        holds the matching value of contents. */
    ghost predicate LinkedFrom(k: nat)
      reads this, Repr
      decreases |chain| - k
    {
      k + 1 < |chain| ==>
        && chain[k] in Repr && chain[k + 1] in Repr
        && chain[k].next == chain[k + 1] && chain[k + 1].prev == chain[k]
        && (k < |contents| ==> contents[k] == chain[k + 1].value)
        && LinkedFrom(k + 1)
    }

    /** The links of LinkedFrom stated position by position. */
    ghost predicate Links()
      reads this, Repr
    {
      && |contents| + 2 == |chain|
      && (forall i :: 0 <= i < |chain| ==> chain[i] in Repr)
      && (forall i {:trigger chain[i].next} :: 0 <= i < |chain| - 1 ==> chain[i].next == chain[i + 1])
      && (forall i {:trigger chain[i].prev} :: 0 < i < |chain| ==> chain[i].prev == chain[i - 1])
      && (forall i {:trigger contents[i]} :: 0 <= i < |contents| ==> contents[i] == chain[i + 1].value)
    }

    /** The links at position i, from LinkedFrom(k) with k <= i. */
    lemma {:induction false} LinkedAt(k: nat, i: int)
      requires LinkedFrom(k) && k <= i && i + 1 < |chain|
      ensures chain[i] in Repr && chain[i + 1] in Repr
      ensures chain[i].next == chain[i + 1] && chain[i + 1].prev == chain[i]
      ensures i < |contents| ==> contents[i] == chain[i + 1].value
      decreases i - k
    {
      if k < i {
        LinkedAt(k + 1, i);
      }
    }

    /** A valid list has all its links. */
    lemma LinksHold()
      requires Valid()
      ensures Links()
    {
      assert forall i {:trigger chain[i].next} :: 0 <= i < |chain| - 1 ==> chain[i].next == chain[i + 1] by {
        forall i | 0 <= i < |chain| - 1
          ensures chain[i].next == chain[i + 1]
        {
          LinkedAt(0, i);
        }
      }
      assert forall i {:trigger contents[i]} :: 0 <= i < |contents| ==> contents[i] == chain[i + 1].value by {
        forall i | 0 <= i < |contents|
          ensures contents[i] == chain[i + 1].value
        {
          LinkedAt(0, i);
        }
      }
      assert forall i :: 0 <= i < |chain| ==> chain[i] in Repr by {
        forall i | 0 <= i < |chain|
          ensures chain[i] in Repr
        {
          if i > 0 {
            LinkedAt(0, i - 1);
          }
        }
      }
      assert forall i {:trigger chain[i].prev} :: 0 < i < |chain| ==> chain[i].prev == chain[i - 1] by {
        forall i | 0 < i < |chain|
          ensures chain[i].prev == chain[i - 1]
        {
          LinkedAt(0, i - 1);
        }
      }
    }

    /** Position-by-position links make LinkedFrom hold from k on. */
    lemma {:induction false} LinksEstablish(k: nat)
      requires Links()
      ensures LinkedFrom(k)
      decreases |chain| - k
    {
      if k + 1 < |chain| {
        LinksEstablish(k + 1);
      }
    }

    /** No node occurs twice in the chain: following the links from two
        equal positions would reach the tail from an inner position, whose
        successor the tail's null next pointer rules out. */
    lemma {:induction false} DistinctAt(i: int, j: int)
      requires Valid() && 0 <= i < j < |chain|
      ensures chain[i] != chain[j]
      decreases |chain| - j
    {
      LinkedAt(0, i);
      if j < |chain| - 1 {
        DistinctAt(i + 1, j + 1);
        LinkedAt(0, j);
      }
    }

    /** The chain has no duplicates. */
    lemma Distinct()
      requires Valid()
      ensures forall i, j :: 0 <= i < j < |chain| ==> chain[i] != chain[j]
    {
      forall i, j | 0 <= i < j < |chain|
        ensures chain[i] != chain[j]
      {
        DistinctAt(i, j);
      }
    }

    /** The node at chain position k occurs nowhere else in the chain. */
    lemma DistinctFrom(k: int)
      requires Valid() && 0 <= k < |chain|
      ensures forall i :: 0 <= i < |chain| && i != k ==> chain[i] != chain[k]
    {
      forall i | 0 <= i < |chain| && i != k
        ensures chain[i] != chain[k]
      {
        if i < k {
          DistinctAt(i, k);
        } else {
          DistinctAt(k, i);
        }
      }
    }

    /** An empty list: two zero-valued sentinels linked to each other. */
    constructor ()
      ensures Valid() && fresh(Repr)
      ensures contents == [] && head.next == tail && tail.prev == head
    {
      var h := new Node.Sentinel();
      var t := new Node.Sentinel();
      h.next := t;
      t.prev := h;
      head, tail, size := h, t, 0;
      chain, contents, Repr := [h, t], [], {h, t};
      new;
      assert LinkedFrom(1);
    }

    /** The list is valid once `node` has been linked between positions k
        and k + 1 of the node sequence c and every other link of c is intact. */
    lemma InsertedValid(c: seq<Node<T>>, oc: seq<T>, k: nat, node: Node<T>)
      requires 2 <= |c| && |oc| + 2 == |c| && k + 1 < |c|
      requires chain == c[..k + 1] + [node] + c[k + 1..]
      requires contents == oc[..k] + [node.value] + oc[k..]
      requires c[0] == head && c[|c| - 1] == tail && head.prev == null && tail.next == null
      requires size == |contents| && node in Repr
      requires forall i :: 0 <= i < |c| ==> c[i] in Repr
      requires node.next == c[k + 1] && node.prev == c[k] && c[k].next == node && c[k + 1].prev == node
      requires forall i {:trigger c[i].next} :: 0 <= i < |c| - 1 && i != k ==> c[i].next == c[i + 1]
      requires forall i {:trigger c[i].prev} :: 0 < i < |c| && i != k + 1 ==> c[i].prev == c[i - 1]
      requires forall i {:trigger oc[i]} :: 0 <= i < |oc| ==> oc[i] == c[i + 1].value
      ensures Valid()
    {
      assert forall i {:trigger c[i]} :: 0 <= i <= k ==> chain[i] == c[i];
      assert forall i {:trigger c[i]} :: k < i < |c| ==> chain[i + 1] == c[i];
      assert Links() by {
        forall i {:trigger chain[i].next} | 0 <= i < |chain| - 1
          ensures chain[i].next == chain[i + 1]
        {
          if i > k + 1 {
            assert chain[i] == c[i - 1];
          }
        }
        forall i {:trigger chain[i].prev} | 0 < i < |chain|
          ensures chain[i].prev == chain[i - 1]
        {
          if i > k + 2 {
            assert chain[i] == c[i - 1];
          }
        }
        forall i {:trigger contents[i]} | 0 <= i < |contents|
          ensures contents[i] == chain[i + 1].value
        {
          if i < k {
            assert contents[i] == oc[i];
          } else if i > k {
            assert contents[i] == oc[i - 1] && chain[i + 1] == c[i];
          }
        }
      }
      LinksEstablish(0);
    }

    /** Splice the detached `node` between chain positions k and k + 1. */
    method InsertBetween(node: Node<T>, prev: Node<T>, next: Node<T>, ghost k: nat)
      requires Valid() && node !in Repr
      requires k + 1 < |chain| && prev == chain[k] && next == chain[k + 1]
      modifies this, node, prev, next
      ensures Valid() && head == old(head) && tail == old(tail)
      ensures chain == old(chain[..k + 1]) + [node] + old(chain[k + 1..])
      ensures contents == old(contents[..k]) + [node.value] + old(contents[k..])
      ensures node.value == old(node.value)
      ensures Repr == old(Repr) + {node}
    {
      LinksHold();
      DistinctFrom(k);
      DistinctFrom(k + 1);
      ghost var c, oc := chain, contents;
      node.next := next;
      node.prev := prev;
      next.prev := node;
      prev.next := node;
      size := size + 1;
      chain := c[..k + 1] + [node] + c[k + 1..];
      contents := oc[..k] + [node.value] + oc[k..];
      Repr := Repr + {node};
      assert head != next && tail != prev;
      InsertedValid(c, oc, k, node);
    }

    /** The list is valid once the node at position k of the node sequence c
        has been bridged over and every other link of c is intact. */
    lemma DeletedValid(c: seq<Node<T>>, oc: seq<T>, k: nat)
      requires |oc| + 2 == |c| && 0 < k < |c| - 1
      requires chain == c[..k] + c[k + 1..] && contents == oc[..k - 1] + oc[k..]
      requires c[0] == head && c[|c| - 1] == tail && head.prev == null && tail.next == null
      requires size == |contents|
      requires forall i :: 0 <= i < |c| ==> c[i] in Repr
      requires c[k - 1].next == c[k + 1] && c[k + 1].prev == c[k - 1]
      requires forall i {:trigger c[i].next} :: 0 <= i < |c| - 1 && i != k - 1 && i != k ==> c[i].next == c[i + 1]
      requires forall i {:trigger c[i].prev} :: 0 < i < |c| && i != k && i != k + 1 ==> c[i].prev == c[i - 1]
      requires forall i {:trigger oc[i]} :: 0 <= i < |oc| ==> oc[i] == c[i + 1].value
      ensures Valid()
    {
      assert forall i {:trigger c[i]} :: 0 <= i < k ==> chain[i] == c[i];
      assert forall i {:trigger c[i]} :: k < i < |c| ==> chain[i - 1] == c[i];
      assert Links() by {
        forall i {:trigger chain[i].next} | 0 <= i < |chain| - 1
          ensures chain[i].next == chain[i + 1]
        {
          if i >= k {
            assert chain[i] == c[i + 1] && chain[i + 1] == c[i + 2];
          }
        }
        forall i {:trigger chain[i].prev} | 0 < i < |chain|
          ensures chain[i].prev == chain[i - 1]
        {
          if i > k {
            assert chain[i] == c[i + 1] && chain[i - 1] == c[i];
          }
        }
        forall i {:trigger contents[i]} | 0 <= i < |contents|
          ensures contents[i] == chain[i + 1].value
        {
          if i < k - 1 {
            assert contents[i] == oc[i];
          } else {
            assert contents[i] == oc[i + 1] && chain[i + 1] == c[i + 2];
          }
        }
      }
      LinksEstablish(0);
    }

    /** Unlink the real node at chain position k; the node itself keeps its
        pointers. Returns its neighbours. */
    method DeleteNode(node: Node<T>, ghost k: nat) returns (prev: Node<T>, next: Node<T>)
      requires Valid() && 0 < k < |chain| - 1 && node == chain[k]
      modifies this, chain[k - 1], chain[k + 1]
      ensures Valid() && head == old(head) && tail == old(tail)
      ensures prev == old(chain[k - 1]) && next == old(chain[k + 1])
      ensures chain == old(chain[..k]) + old(chain[k + 1..])
      ensures contents == old(contents[..k - 1]) + old(contents[k..])
      ensures Repr == old(Repr)
    {
      LinksHold();
      DistinctFrom(k - 1);
      DistinctFrom(k + 1);
      ghost var c, oc := chain, contents;
      prev := node.prev;
      next := node.next;
      prev.next := next;
      next.prev := prev;
      size := size - 1;
      chain := c[..k] + c[k + 1..];
      contents := oc[..k - 1] + oc[k..];
      assert head != next && tail != prev;
      DeletedValid(c, oc, k);
    }

    /** Unlink the real node at chain position k together with every node
        after it, linking the node before it to the tail, and store newSize
        as the size. The list is valid afterwards exactly when newSize is
        the number of real nodes left. */
    method TruncateAt(node: Node<T>, newSize: int, ghost k: nat)
      requires Valid() && 0 < k < |chain| - 1 && node == chain[k]
      modifies this, tail, chain[k - 1]
      ensures Valid() <==> newSize == k - 1
      ensures size == newSize && head == old(head) && tail == old(tail)
      ensures chain == old(chain[..k]) + [tail]
      ensures contents == old(contents[..k - 1])
      ensures Repr == old(Repr)
    {
      LinksHold();
      DistinctFrom(k - 1);
      DistinctFrom(|chain| - 1);
      ghost var c := chain;
      tail.prev := node.prev;
      node.prev.next := tail;
      size := newSize;
      chain := c[..k] + [tail];
      contents := contents[..k - 1];
      forall i | 0 <= i < |chain| - 1
        ensures chain[i].next == chain[i + 1]
      {
        if i != k - 1 {
          assert chain[i] != c[k - 1];
        }
      }
      forall i | 0 < i < |chain|
        ensures chain[i].prev == chain[i - 1]
      {
        if i != k {
          assert chain[i] != tail;
        }
      }
      assert head != tail;
      assert tail != c[k - 1];
      forall i | 0 <= i < |contents|
        ensures contents[i] == chain[i + 1].value
      {
      }
      LinksEstablish(0);
    }
  }

  /** A forward iterator: it sits on a node and steps toward the tail. */
  class FrwIter<T(0)> {
    var node: Node?<T>
    const lst: List<T>
    ghost var pos: int

    constructor (node: Node?<T>, lst: List<T>, ghost pos: int)
      ensures this.node == node && this.lst == lst && this.pos == pos
    {
      this.node := node;
      this.lst := lst;
      this.pos := pos;
    }

    /** The iterator sits on chain position pos of a valid list, before the tail. */
    ghost predicate Attached()
      reads this, lst, lst.Repr
    {
      lst.Valid() && 0 <= pos < |lst.chain| - 1 && node == lst.chain[pos]
    }

    /** The values Next will still produce. */
    ghost function Rest(): seq<T>
      requires Attached()
      reads this, lst, lst.Repr
    {
      lst.contents[pos..]
    }

    predicate HasNext()
      reads this, node, lst, lst.Repr
      ensures Attached() ==> (HasNext() <==> pos < |lst.contents|)
    {
      if node == null then false
      else
        assert Attached() ==> node.next == lst.chain[pos + 1] && (lst.chain[pos + 1] == lst.tail <==> pos + 1 == |lst.chain| - 1) by {
          if Attached() {
            lst.LinkedAt(0, pos);
            if pos + 1 < |lst.chain| - 1 {
              lst.DistinctAt(pos + 1, |lst.chain| - 1);
            }
          }
        }
        node.next != lst.tail
    }

    /** Move one node toward the tail and return its value. */
    method Next() returns (v: T)
      requires Valid() && HasNext() && Attached()
      modifies this
      ensures Attached() && pos == old(pos) + 1
      ensures v == lst.contents[old(pos)]
      ensures node != lst.head && node != lst.tail
    {
      lst.LinkedAt(0, pos);
      node := node.next;
      pos := pos + 1;
      v := node.value;
      lst.DistinctAt(0, pos);
      lst.DistinctAt(pos, |lst.chain| - 1);
    }

    /** Overwrite the value of the current node, which must be a real one. */
    method Set(val: T)
      requires Valid() && node != lst.head && node != lst.tail
      requires Attached()
      modifies node, lst
      ensures Attached() && lst.chain == old(lst.chain) && lst.Repr == old(lst.Repr)
      ensures lst.contents == old(lst.contents)[pos - 1 := val]
    {
      lst.LinksHold();
      lst.DistinctFrom(pos);
      node.value := val;
      lst.contents := lst.contents[pos - 1 := val];
      forall i | 0 <= i < |lst.contents|
        ensures lst.contents[i] == lst.chain[i + 1].value
      {
        if i != pos - 1 {
          assert lst.chain[i + 1] != node;
        }
      }
      lst.LinksEstablish(0);
    }

    /** The iterator points to a node. */
    predicate Valid()
      reads this
    {
      node != null
    }
  }

  /** A reverse iterator: it sits on a node and steps toward the head. */
  class RevIter<T(0)> {
    var node: Node?<T>
    const lst: List<T>
    ghost var pos: int

    constructor (node: Node?<T>, lst: List<T>, ghost pos: int)
      ensures this.node == node && this.lst == lst && this.pos == pos
    {
      this.node := node;
      this.lst := lst;
      this.pos := pos;
    }

    /** The iterator sits on chain position pos of a valid list, after the head. */
    ghost predicate Attached()
      reads this, lst, lst.Repr
    {
      lst.Valid() && 0 < pos < |lst.chain| && node == lst.chain[pos]
    }

    /** The values Next will still produce, back to front. */
    ghost function Rest(): seq<T>
      requires Attached()
      reads this, lst, lst.Repr
    {
      Reversed(lst.contents[..pos - 1])
    }

    predicate HasNext()
      reads this, node, lst, lst.Repr
      ensures Attached() ==> (HasNext() <==> pos > 1)
    {
      if node == null then false
      else
        assert Attached() ==> node.prev == lst.chain[pos - 1] && (lst.chain[pos - 1] == lst.head <==> pos - 1 == 0) by {
          if Attached() {
            lst.LinkedAt(0, pos - 1);
            if 0 < pos - 1 {
              lst.DistinctAt(0, pos - 1);
            }
          }
        }
        node.prev != lst.head
    }

    /** Move one node toward the head and return its value (the step the
        iterator's contract calls for; see NextNodeAsWritten). */
    method Next() returns (v: T)
      requires Valid() && HasNext() && Attached()
      modifies this
      ensures Attached() && pos == old(pos) - 1
      ensures v == lst.contents[pos - 1]
      ensures node != lst.head && node != lst.tail
    {
      lst.LinkedAt(0, pos - 1);
      node := node.prev;
      pos := pos - 1;
      v := node.value;
      lst.LinkedAt(0, pos - 1);
      lst.DistinctAt(0, pos);
      lst.DistinctAt(pos, |lst.chain| - 1);
    }

    /** The node the source's Next steps to: the successor, not the predecessor. */
    function NextNodeAsWritten(): Node?<T>
      requires Valid()
      reads this, node
    {
      node.next
    }

    /** Overwrite the value of the current node, which must be a real one. */
    method Set(val: T)
      requires Valid() && node != lst.head && node != lst.tail
      requires Attached()
      modifies node, lst
      ensures Attached() && lst.chain == old(lst.chain) && lst.Repr == old(lst.Repr)
      ensures lst.contents == old(lst.contents)[pos - 1 := val]
    {
      lst.LinksHold();
      lst.DistinctFrom(pos);
      node.value := val;
      lst.contents := lst.contents[pos - 1 := val];
      forall i | 0 <= i < |lst.contents|
        ensures lst.contents[i] == lst.chain[i + 1].value
      {
        if i != pos - 1 {
          assert lst.chain[i + 1] != node;
        }
      }
      lst.LinksEstablish(0);
    }

    /** The iterator points to a node. */
    predicate Valid()
      reads this
    {
      node != null
    }
  }

  /** The source's iterator interface: a list iterator is either kind. */
  datatype Iterator<T(0)> = Frw(frw: FrwIter<T>) | Rev(rev: RevIter<T>)

  function IterObj<T(0)>(it: Iterator<T>): object {
    match it
    case Frw(f) => f
    case Rev(r) => r
  }

  function ListOf<T(0)>(it: Iterator<T>): List<T> {
    match it
    case Frw(f) => f.lst
    case Rev(r) => r.lst
  }

  function IterNode<T(0)>(it: Iterator<T>): Node?<T>
    reads IterObj(it)
  {
    match it
    case Frw(f) => f.node
    case Rev(r) => r.node
  }

  ghost function IterPos<T(0)>(it: Iterator<T>): int
    reads IterObj(it)
  {
    match it
    case Frw(f) => f.pos
    case Rev(r) => r.pos
  }

  ghost predicate IterAttached<T(0)>(it: Iterator<T>)
    reads IterObj(it), ListOf(it), ListOf(it).Repr
  {
    match it
    case Frw(f) => f.Attached()
    case Rev(r) => r.Attached()
  }

  ghost function IterRest<T(0)>(it: Iterator<T>): seq<T>
    requires IterAttached(it)
    reads IterObj(it), ListOf(it), ListOf(it).Repr
  {
    match it
    case Frw(f) => f.Rest()
    case Rev(r) => r.Rest()
  }

  /** Where in the contents Insert places new elements: after the current
      node for a forward iterator, before it for a reverse one. */
  ghost function InsertPoint<T(0)>(it: Iterator<T>): int
    reads IterObj(it)
  {
    match it
    case Frw(f) => f.pos
    case Rev(r) => r.pos - 1
  }

  /** The source's abort check: the iterator is valid and its node is a
      real element (neither link is missing). */
  predicate DeleteGuard<T(0)>(node: Node?<T>)
    reads node
  {
    node != null && node.prev != null && node.next != null
  }

  /** A forward iterator on the head sentinel: it yields the contents in order. */
  method Iter<T(0)>(l: List<T>) returns (it: FrwIter<T>)
    requires l.Valid()
    ensures fresh(it) && it.lst == l && it.node == l.head && it.pos == 0
    ensures it.Attached()
  {
    it := new FrwIter(l.head, l, 0);
  }

  /** A reverse iterator on the tail sentinel: it yields the contents back to front. */
  method RIter<T(0)>(l: List<T>) returns (it: RevIter<T>)
    requires l.Valid()
    ensures fresh(it) && it.lst == l && it.node == l.tail && it.pos == |l.chain| - 1
    ensures it.Attached() && it.Rest() == Reversed(l.contents)
  {
    it := new RevIter(l.tail, l, |l.chain| - 1);
    assert l.contents[..|l.chain| - 2] == l.contents;
  }

  /** The number of elements, kept in a field. */
  function Len<T(0)>(l: List<T>): (n: int)
    requires l.Valid()
    reads l, l.Repr
    ensures n == |l.contents|
  {
    l.size
  }

  /** Insert elems after the forward iterator's node, in order. */
  method InsertAfter<T(0)>(f: FrwIter<T>, elems: seq<T>)
    requires f.Attached()
    modifies f.lst, f.lst.Repr
    ensures f.Attached() && f.pos == old(f.pos)
    ensures f.lst.contents == old(f.lst.contents[..f.pos]) + elems + old(f.lst.contents[f.pos..])
    ensures fresh(f.lst.Repr - old(f.lst.Repr))
  {
    var lst := f.lst;
    ghost var c := lst.contents;
    ghost var p := f.pos;
    var i := |elems|;
    while i > 0
      invariant 0 <= i <= |elems|
      invariant lst.Valid() && 0 <= p < |lst.chain| - 1 && f.node == lst.chain[p]
      invariant lst.contents == c[..p] + elems[i..] + c[p..]
      invariant fresh(lst.Repr - old(lst.Repr))
      decreases i
    {
      i := i - 1;
      var node := new Node(elems[i]);
      lst.LinkedAt(0, p);
      lst.InsertBetween(node, f.node, f.node.next, p);
      InsertAfterStep(c, p, elems, i);
    }
    assert elems[0..] == elems;
  }

  /** Insert elems before the reverse iterator's node, in order; the
      iterator stays on its node, which moves |elems| places along. */
  method InsertBefore<T(0)>(r: RevIter<T>, elems: seq<T>)
    requires r.Attached()
    modifies r, r.lst, r.lst.Repr
    ensures r.Attached() && r.node == old(r.node) && r.pos == old(r.pos) + |elems|
    ensures r.lst.contents == old(r.lst.contents[..r.pos - 1]) + elems + old(r.lst.contents[r.pos - 1..])
    ensures fresh(r.lst.Repr - old(r.lst.Repr))
  {
    var lst := r.lst;
    ghost var c := lst.contents;
    ghost var q := r.pos;
    for i := 0 to |elems|
      invariant r.Attached() && r.node == old(r.node) && r.pos == q + i
      invariant lst.contents == c[..q - 1] + elems[..i] + c[q - 1..]
      invariant fresh(lst.Repr - old(lst.Repr))
    {
      var node := new Node(elems[i]);
      lst.LinkedAt(0, r.pos - 1);
      lst.InsertBetween(node, r.node.prev, r.node, r.pos - 1);
      r.pos := r.pos + 1;
      InsertBeforeStep(c, q - 1, elems, i);
    }
  }

  lemma InsertAfterStep<T>(c: seq<T>, p: nat, e: seq<T>, i: nat)
    requires p <= |c| && i < |e|
    ensures var cur := c[..p] + e[i + 1..] + c[p..];
      cur[..p] + [e[i]] + cur[p..] == c[..p] + e[i..] + c[p..]
  {
    var cur := c[..p] + e[i + 1..] + c[p..];
    assert cur[..p] == c[..p] && cur[p..] == e[i + 1..] + c[p..];
    assert [e[i]] + e[i + 1..] == e[i..];
  }

  lemma InsertBeforeStep<T>(c: seq<T>, p: nat, e: seq<T>, i: nat)
    requires p <= |c| && i < |e|
    ensures var cur := c[..p] + e[..i] + c[p..];
      cur[..p + i] + [e[i]] + cur[p + i..] == c[..p] + e[..i + 1] + c[p..]
  {
    var cur := c[..p] + e[..i] + c[p..];
    assert cur[..p + i] == c[..p] + e[..i] && cur[p + i..] == c[p..];
    assert e[..i] + [e[i]] == e[..i + 1];
  }

  /** Insert elems next to the iterator, in the iterator's direction. */
  method Insert<T(0)>(it: Iterator<T>, elems: seq<T>)
    requires IterAttached(it)
    modifies ListOf(it), ListOf(it).Repr, IterObj(it)
    ensures IterAttached(it) && IterNode(it) == old(IterNode(it))
    ensures IterPos(it) == old(IterPos(it)) + (if it.Rev? then |elems| else 0)
    ensures var k := old(InsertPoint(it));
      ListOf(it).contents == old(ListOf(it).contents[..k]) + elems + old(ListOf(it).contents[k..])
    ensures fresh(ListOf(it).Repr - old(ListOf(it).Repr))
  {
    match it
    case Frw(f) => InsertAfter(f, elems);
    case Rev(r) => InsertBefore(r, elems);
  }

  /** Remove the iterator's node. The returned iterator, of the same kind,
      sits on the node before it (forward) or after it (reverse), so what it
      yields next is what the given iterator would have yielded next. */
  method Delete<T(0)>(it: Iterator<T>) returns (res: Iterator<T>)
    requires IterAttached(it) && DeleteGuard(IterNode(it))
    modifies ListOf(it), IterNode(it).prev, IterNode(it).next
    ensures ListOf(res) == ListOf(it) && res.Frw? == it.Frw? && fresh(IterObj(res))
    ensures IterAttached(res) && IterRest(res) == old(IterRest(it))
    ensures var k := old(IterPos(it)) - 1;
      ListOf(it).contents == old(ListOf(it).contents[..k]) + old(ListOf(it).contents[k + 1..])
    ensures ListOf(it).Repr == old(ListOf(it).Repr)
  {
    match it
    case Frw(f) =>
      var g := DeleteFrw(f);
      res := Frw(g);
    case Rev(r) =>
      var g := DeleteRev(r);
      res := Rev(g);
  }

  /** Delete through a forward iterator: the new iterator is on the node before. */
  method DeleteFrw<T(0)>(f: FrwIter<T>) returns (g: FrwIter<T>)
    requires f.Attached() && DeleteGuard(f.node)
    modifies f.lst, f.node.prev, f.node.next
    ensures g.lst == f.lst && fresh(g) && g.Attached() && g.Rest() == old(f.Rest())
    ensures var k := old(f.pos) - 1;
      f.lst.contents == old(f.lst.contents[..k]) + old(f.lst.contents[k + 1..])
    ensures f.lst.Repr == old(f.lst.Repr)
  {
    var lst := f.lst;
    assert f.node != lst.head && f.node != lst.tail;
    lst.LinkedAt(0, f.pos - 1);
    lst.LinkedAt(0, f.pos);
    var prev, _ := lst.DeleteNode(f.node, f.pos);
    g := new FrwIter(prev, lst, f.pos - 1);
  }

  /** Delete through a reverse iterator: the new iterator is on the node after. */
  method DeleteRev<T(0)>(r: RevIter<T>) returns (g: RevIter<T>)
    requires r.Attached() && DeleteGuard(r.node)
    modifies r.lst, r.node.prev, r.node.next
    ensures g.lst == r.lst && fresh(g) && g.Attached() && g.Rest() == old(r.Rest())
    ensures var k := old(r.pos) - 1;
      r.lst.contents == old(r.lst.contents[..k]) + old(r.lst.contents[k + 1..])
    ensures r.lst.Repr == old(r.lst.Repr)
  {
    var lst := r.lst;
    assert r.node != lst.tail;
    lst.LinkedAt(0, r.pos - 1);
    lst.LinkedAt(0, r.pos);
    var _, next := lst.DeleteNode(r.node, r.pos);
    g := new RevIter(next, lst, r.pos);
    assert lst.contents[..r.pos - 1] == old(lst.contents[..r.pos - 1]);
  }

  /** A list holding elems, front to back, built from fresh nodes. */
  method New<T(0)>(elems: seq<T>) returns (l: List<T>)
    ensures fresh(l) && fresh(l.Repr) && l.Valid() && l.contents == elems
  {
    l := new List();
    PushBack(l, elems);
  }

  /** A list of what the iterator still produces; the iterator is exhausted. */
  method FromIter<T(0)>(it: Iters.Iterator<T>) returns (l: List<T>)
    modifies it
    ensures fresh(l) && fresh(l.Repr) && l.Valid() && l.contents == old(it.rest)
    ensures !it.HasNext()
  {
    ghost var s := it.rest;
    l := New([]);
    while it.HasNext()
      invariant fresh(l) && fresh(l.Repr) && l.Valid()
      invariant l.contents + it.rest == s
      decreases |it.rest|
    {
      var v := it.Next();
      PushBack(l, [v]);
    }
  }

  /** Append elems at the back, in order. */
  method PushBack<T(0)>(l: List<T>, elems: seq<T>)
    requires l.Valid()
    modifies l, l.Repr
    ensures l.Valid() && l.contents == old(l.contents) + elems
    ensures fresh(l.Repr - old(l.Repr))
  {
    var it := RIter(l);
    Insert(Rev(it), elems);
    assert old(l.contents)[..|old(l.contents)|] == old(l.contents);
  }

  /** Prepend elems at the front, in order. */
  method PushFront<T(0)>(l: List<T>, elems: seq<T>)
    requires l.Valid()
    modifies l, l.Repr
    ensures l.Valid() && l.contents == elems + old(l.contents)
    ensures fresh(l.Repr - old(l.Repr))
  {
    var it := Iter(l);
    Insert(Frw(it), elems);
  }

  /** Remove the last element. */
  method PopBack<T(0)>(l: List<T>)
    requires l.Valid() && l.size > 0
    modifies l, l.Repr
    ensures l.Valid() && l.contents == old(l.contents[..|l.contents| - 1])
    ensures l.Repr == old(l.Repr)
  {
    var it := RIter(l);
    var _ := it.Next();
    l.LinkedAt(0, it.pos - 1);
    l.LinkedAt(0, it.pos);
    var _ := Delete(Rev(it));
  }

  /** Remove the first element. */
  method PopFront<T(0)>(l: List<T>)
    requires l.Valid() && l.size > 0
    modifies l, l.Repr
    ensures l.Valid() && l.contents == old(l.contents[1..])
    ensures l.Repr == old(l.Repr)
  {
    var it := Iter(l);
    var _ := it.Next();
    l.LinkedAt(0, it.pos - 1);
    l.LinkedAt(0, it.pos);
    var _ := Delete(Frw(it));
  }

  /** PopBack as the source writes it hands Delete the fresh reverse
      iterator, which sits on the tail sentinel: Delete's check rejects it. */
  lemma PopBackAsWrittenAborts<T(0)>(l: List<T>, it: RevIter<T>)
    requires l.Valid() && l.size > 0
    requires it.lst == l && it.node == l.tail
    ensures !DeleteGuard(it.node)
  {
  }

  /** PopFront as the source writes it hands Delete the fresh forward
      iterator, which sits on the head sentinel: Delete's check rejects it. */
  lemma PopFrontAsWrittenAborts<T(0)>(l: List<T>, it: FrwIter<T>)
    requires l.Valid() && l.size > 0
    requires it.lst == l && it.node == l.head
    ensures !DeleteGuard(it.node)
  {
  }

  /** The first element. */
  function Front<T(0)>(l: List<T>): (v: T)
    requires l.Valid() && l.size > 0
    reads l, l.Repr
    ensures v == l.contents[0]
  {
    assert l.head.next == l.chain[1];
    l.head.next.value
  }

  /** The last element. */
  function Back<T(0)>(l: List<T>): (v: T)
    requires l.Valid() && l.size > 0
    reads l, l.Repr
    ensures v == l.contents[|l.contents| - 1]
  {
    l.LinkedAt(0, |l.chain| - 3);
    l.LinkedAt(0, |l.chain| - 2);
    l.tail.prev.value
  }

  /** The source's reverse iterator steps to the successor. On a fresh
      reverse iterator over a non-empty list HasNext holds, yet that
      successor does not exist. */
  lemma RevNextAsWrittenFromTail<T(0)>(l: List<T>, it: RevIter<T>)
    requires l.Valid() && l.size > 0
    requires it.lst == l && it.node == l.tail && it.pos == |l.chain| - 1
    ensures it.Attached() && it.Valid() && it.HasNext()
    ensures it.NextNodeAsWritten() == null
  {
  }

  /** Anywhere before the tail, the source's reverse step moves toward the
      tail instead of toward the head. */
  lemma RevNextAsWrittenGoesForward<T(0)>(it: RevIter<T>)
    requires it.Attached() && it.pos < |it.lst.chain| - 1
    ensures it.Valid() && it.NextNodeAsWritten() == it.lst.chain[it.pos + 1]
    ensures it.NextNodeAsWritten() != it.lst.chain[it.pos - 1]
  {
    it.lst.LinkedAt(0, it.pos);
    it.lst.DistinctAt(it.pos - 1, it.pos + 1);
  }

  /** The contents as a slice, front to back. */
  method ToSlice<T(0)>(l: List<T>) returns (res: seq<T>)
    requires l.Valid()
    ensures res == l.contents
  {
    res := [];
    var it := Iter(l);
    while it.HasNext()
      invariant it.Attached() && it.lst == l
      invariant res == l.contents[..it.pos]
      decreases |l.contents| - it.pos
    {
      var v := it.Next();
      res := res + [v];
    }
  }

  /** Element-wise equality under eq: false as soon as the sizes differ,
      otherwise true exactly when eq holds at every position. */
  method EqualFunc<T1(0), T2(0)>(l1: List<T1>, l2: List<T2>, eq: (T1, T2) -> bool) returns (r: bool)
    requires l1.Valid() && l2.Valid()
    ensures r == EqualBy(eq, l1.contents, l2.contents)
  {
    if l1.size != l2.size {
      return false;
    }
    ghost var a, b := l1.contents, l2.contents;
    ghost var k := 0;
    var it1 := Iter(l1);
    var it2 := Iter(l2);
    while it1.HasNext()
      invariant BothAt(it1, l1, it2, l2, k)
      invariant EqualBy(eq, a[..k], b[..k])
      decreases |a| - k
    {
      var same := EqualStep(it1, l1, it2, l2, eq, k);
      if !same {
        return false;
      }
      k := k + 1;
    }
    assert a[..k] == a && b[..k] == b;
    return true;
  }

  /** One round of EqualFunc: compare the next values of both lists. */
  method EqualStep<T1(0), T2(0)>(it1: FrwIter<T1>, l1: List<T1>, it2: FrwIter<T2>, l2: List<T2>,
                                 eq: (T1, T2) -> bool, ghost k: int) returns (same: bool)
    requires BothAt(it1, l1, it2, l2, k) && k < |l1.contents| && k < |l2.contents|
    requires EqualBy(eq, l1.contents[..k], l2.contents[..k])
    modifies it1, it2
    ensures BothAt(it1, l1, it2, l2, k + 1)
    ensures same == eq(l1.contents[k], l2.contents[k])
    ensures same ==> EqualBy(eq, l1.contents[..k + 1], l2.contents[..k + 1])
  {
    var v1, v2 := NextBoth(it1, l1, it2, l2, k);
    same := eq(v1, v2);
    if same {
      EqualByExtend(eq, l1.contents, l2.contents, k);
    }
  }

  /** Two distinct forward iterators, over l1 and l2 (possibly the same
      list), both on chain position k. */
  ghost predicate BothAt<T1(0), T2(0)>(it1: FrwIter<T1>, l1: List<T1>, it2: FrwIter<T2>, l2: List<T2>, k: int)
    reads it1, it2, l1, l1.Repr, l2, l2.Repr
  {
    && it1 as object != it2 as object
    && it1.lst == l1 && it2.lst == l2 && it1.Attached() && it2.Attached()
    && it1.pos == k && it2.pos == k
  }

  /** Advance two forward iterators by one node each and return the values
      they step over. */
  method NextBoth<T1(0), T2(0)>(it1: FrwIter<T1>, l1: List<T1>, it2: FrwIter<T2>, l2: List<T2>, ghost k: int)
    returns (v1: T1, v2: T2)
    requires BothAt(it1, l1, it2, l2, k) && k < |l1.contents| && k < |l2.contents|
    modifies it1, it2
    ensures BothAt(it1, l1, it2, l2, k + 1)
    ensures v1 == l1.contents[k] && v2 == l2.contents[k]
  {
    v1 := it1.Next();
    v2 := it2.Next();
  }

  /** Equal is EqualFunc with ==: true exactly when the contents are equal. */
  method Equal<T(0, ==)>(l1: List<T>, l2: List<T>) returns (r: bool)
    requires l1.Valid() && l2.Valid()
    ensures r <==> l1.contents == l2.contents
  {
    r := EqualFunc(l1, l2, Gcl.Equal);
    EqualByEq(l1.contents, l2.contents);
  }

  /** Lexicographic comparison under cmp: the first non-zero cmp result,
      otherwise the shorter list is the smaller. */
  method CompareFunc<T1(0), T2(0)>(l1: List<T1>, l2: List<T2>, cmp: (T1, T2) -> int) returns (r: int)
    requires l1.Valid() && l2.Valid()
    ensures r == LexCompare(cmp, l1.contents, l2.contents)
  {
    ghost var a, b := l1.contents, l2.contents;
    ghost var k := 0;
    var it1 := Iter(l1);
    var it2 := Iter(l2);
    while it1.HasNext()
      invariant BothAt(it1, l1, it2, l2, k)
      invariant LexCompare(cmp, a, b) == LexCompare(cmp, a[k..], b[k..])
      decreases |a| - k
    {
      if !it2.HasNext() {
        return 1;
      }
      var v1, v2 := NextBoth(it1, l1, it2, l2, k);
      assert a[k..][1..] == a[k + 1..] && b[k..][1..] == b[k + 1..];
      var c := cmp(v1, v2);
      if c != 0 {
        return c;
      }
      k := k + 1;
    }
    if it2.HasNext() {
      return -1;
    }
    return 0;
  }

  /** Lexicographic comparison of integer lists with the three-way comparator. */
  method Compare(l1: List<int>, l2: List<int>) returns (r: int)
    requires l1.Valid() && l2.Valid()
    ensures r == LexCompare(Gcl.Compare, l1.contents, l2.contents)
    ensures r == -1 || r == 0 || r == 1
    ensures r == 0 <==> l1.contents == l2.contents
  {
    r := CompareFunc(l1, l2, Gcl.Compare);
    LexIntRange(l1.contents, l2.contents);
  }

  /** Sort the values in place: the nodes and their order stay, the values
      are rewritten front to back with the sorted copy. */
  method SortFunc<T(0)>(l: List<T>, less: (T, T) -> bool)
    requires l.Valid()
    modifies l, l.Repr
    ensures l.Valid() && l.chain == old(l.chain) && l.Repr == old(l.Repr)
    ensures l.contents == SortBy(less, old(l.contents))
  {
    var slice := ToSlice(l);
    var sorted := SortBy(less, slice);
    var it := Iter(l);
    for i := 0 to |sorted|
      invariant it.Attached() && it.lst == l && it.pos == i
      invariant l.chain == old(l.chain) && l.Repr == old(l.Repr)
      invariant l.contents == sorted[..i] + slice[i..]
    {
      StepAndSet(it, sorted[i]);
      OverwriteStep(sorted, slice, i);
    }
  }

  /** Step a forward iterator onto the next real node and overwrite its value. */
  method StepAndSet<T(0)>(it: FrwIter<T>, val: T)
    requires it.Attached() && it.HasNext()
    modifies it, it.lst, it.lst.Repr
    ensures it.Attached() && it.pos == old(it.pos) + 1
    ensures it.lst.chain == old(it.lst.chain) && it.lst.Repr == old(it.lst.Repr)
    ensures it.lst.contents == old(it.lst.contents)[old(it.pos) := val]
  {
    var _ := it.Next();
    it.Set(val);
  }

  /** Sort an integer list ascending. */
  method Sort(l: List<int>)
    requires l.Valid()
    modifies l, l.Repr
    ensures l.Valid() && l.chain == old(l.chain) && l.Repr == old(l.Repr)
    ensures l.contents == SortBy(Gcl.Less, old(l.contents))
    ensures SortedBy(Gcl.Less, l.contents) && multiset(l.contents) == multiset(old(l.contents))
  {
    SortFunc(l, Gcl.Less);
    SortByCorrect(Gcl.Less, old(l.contents));
  }

  /** Whether no element is less than the one before it, checked from the
      back with a reverse iterator. */
  method IsSortedFunc<T(0)>(l: List<T>, less: (T, T) -> bool) returns (r: bool)
    requires l.Valid()
    ensures r == SortedBy(less, l.contents)
  {
    ghost var c := l.contents;
    var it := RIter(l);
    if !it.HasNext() {
      return true;
    }
    var vr := it.Next();
    while it.HasNext()
      invariant it.Attached() && it.lst == l
      invariant 1 <= it.pos <= |c| && vr == c[it.pos - 1]
      invariant forall i :: it.pos <= i < |c| ==> !less(c[i], c[i - 1])
      decreases it.pos
    {
      var vl := it.Next();
      if less(vr, vl) {
        return false;
      }
      vr := vl;
    }
    return true;
  }

  /** Whether an integer list is ascending. */
  method IsSorted(l: List<int>) returns (r: bool)
    requires l.Valid()
    ensures r == SortedBy(Gcl.Less, l.contents)
  {
    r := IsSortedFunc(l, Gcl.Less);
  }

  /** Position of the first element satisfying pred, or -1. */
  method IndexFunc<T(0)>(l: List<T>, pred: T -> bool) returns (r: int)
    requires l.Valid()
    ensures r == FirstIndex(pred, l.contents)
  {
    var i := 0;
    var it := Iter(l);
    while it.HasNext()
      invariant it.Attached() && it.lst == l && it.pos == i
      invariant forall k :: 0 <= k < i ==> !pred(l.contents[k])
      decreases |l.contents| - i
    {
      var v := it.Next();
      if pred(v) {
        return i;
      }
      i := i + 1;
    }
    return -1;
  }

  /** Position of the first occurrence of v, or -1 when v does not occur. */
  method Index<T(0, ==)>(l: List<T>, v: T) returns (r: int)
    requires l.Valid()
    ensures -1 <= r < |l.contents|
    ensures r == -1 <==> v !in l.contents
    ensures r >= 0 ==> l.contents[r] == v && v !in l.contents[..r]
  {
    r := IndexFunc(l, (x: T) => x == v);
  }

  /** An iterator just past the first occurrence of v, and whether there is
      one; without one the iterator is exhausted. */
  method Pos<T(0, ==)>(l: List<T>, v: T) returns (it: FrwIter<T>, found: bool)
    requires l.Valid()
    ensures fresh(it) && it.lst == l && it.Attached()
    ensures found <==> v in l.contents
    ensures found ==> 0 < it.pos && l.contents[it.pos - 1] == v && v !in l.contents[..it.pos - 1]
    ensures !found ==> it.Rest() == []
  {
    it := Iter(l);
    while it.HasNext()
      invariant it.Attached() && it.lst == l
      invariant v !in l.contents[..it.pos]
      decreases |l.contents| - it.pos
    {
      var x := it.Next();
      if x == v {
        return it, true;
      }
      assert l.contents[..it.pos] == l.contents[..it.pos - 1] + [x];
    }
    assert l.contents[..it.pos] == l.contents;
    return it, false;
  }

  /** Whether v occurs in the list. */
  method Contains<T(0, ==)>(l: List<T>, v: T) returns (r: bool)
    requires l.Valid()
    ensures r <==> v in l.contents
  {
    var _, found := Pos(l, v);
    return found;
  }

  /** A copy with fresh nodes holding the same values. */
  method Clone<T(0)>(l: List<T>) returns (res: List<T>)
    requires l.Valid()
    ensures fresh(res) && fresh(res.Repr) && res.Valid() && res.contents == l.contents
  {
    res := New([]);
    var it := Iter(l);
    while it.HasNext()
      invariant fresh(res) && fresh(res.Repr) && res.Valid()
      invariant it.Attached() && it.lst == l
      invariant res.contents == l.contents[..it.pos]
      decreases |l.contents| - it.pos
    {
      CloneStep(l, it, res);
    }
  }

  /** One round of Clone: copy the value the iterator steps over to the
      back of res, which shares no node with l. */
  method CloneStep<T(0)>(l: List<T>, it: FrwIter<T>, res: List<T>)
    requires it.Attached() && it.lst == l && it.HasNext()
    requires res.Valid() && res != l && res.Repr !! l.Repr && res.contents == l.contents[..it.pos]
    modifies it, res, res.Repr
    ensures it.Attached() && it.lst == l && it.pos == old(it.pos) + 1
    ensures res.Valid() && fresh(res.Repr - old(res.Repr)) && res.contents == l.contents[..it.pos]
  {
    var v := it.Next();
    PushBack(res, [v]);
    assert l.contents[..it.pos] == l.contents[..it.pos - 1] + [v];
  }

  /** Reverse the values in place: a forward and a reverse iterator walk
      toward each other, exchanging the values they meet. */
  method Reverse<T(0)>(l: List<T>)
    requires l.Valid()
    modifies l, l.Repr
    ensures l.Valid() && l.chain == old(l.chain) && l.Repr == old(l.Repr)
    ensures l.contents == Reversed(old(l.contents))
  {
    ghost var s := l.contents;
    ghost var n := |s|;
    var fIt := Iter(l);
    var rIt := RIter(l);
    var fIdx, rIdx := 0, l.size - 1;
    while fIdx < rIdx
      invariant ReverseInvariant(l, fIt, rIt, s, fIdx) && rIdx == n - 1 - fIdx
      invariant l.chain == old(l.chain) && l.Repr == old(l.Repr)
      decreases rIdx - fIdx
    {
      ReverseStep(l, fIt, rIt, s, fIdx);
      fIdx, rIdx := fIdx + 1, rIdx - 1;
    }
    if n > 0 {
      assert fIdx == n / 2;
      SwapHalfReverses(s);
    }
  }

  /** What holds between rounds of Reverse: after k rounds both iterators
      are k nodes in from their ends and the outer k values at each end have
      been exchanged. */
  ghost predicate ReverseInvariant<T(0)>(l: List<T>, fIt: FrwIter<T>, rIt: RevIter<T>, s: seq<T>, k: int)
    reads l, l.Repr, fIt, rIt
  {
    && fIt.lst == l && rIt.lst == l && fIt.Attached() && rIt.Attached()
    && 0 <= k && 2 * k <= |s|
    && fIt.pos == k && rIt.pos == |s| + 1 - k
    && l.contents == SwapSteps(s, 0, |s| - 1, k)
  }

  /** One round of the Reverse loop, in terms of ReverseInvariant. */
  method ReverseStep<T(0)>(l: List<T>, fIt: FrwIter<T>, rIt: RevIter<T>, ghost s: seq<T>, ghost k: int)
    requires ReverseInvariant(l, fIt, rIt, s, k) && k < |s| - 1 - k
    modifies l, l.Repr, fIt, rIt
    ensures ReverseInvariant(l, fIt, rIt, s, k + 1)
    ensures l.chain == old(l.chain) && l.Repr == old(l.Repr)
  {
    SwapStep(fIt, rIt);
  }

  /** One round of Reverse: step both iterators inward and exchange the
      values of the two nodes they reach. */
  method SwapStep<T(0)>(fIt: FrwIter<T>, rIt: RevIter<T>)
    requires fIt.Attached() && rIt.Attached() && fIt.lst == rIt.lst
    requires fIt.pos + 1 < rIt.pos - 1
    modifies fIt, rIt, fIt.lst, fIt.lst.Repr
    ensures fIt.Attached() && rIt.Attached()
    ensures fIt.pos == old(fIt.pos) + 1 && rIt.pos == old(rIt.pos) - 1
    ensures fIt.lst.chain == old(fIt.lst.chain) && fIt.lst.Repr == old(fIt.lst.Repr)
    ensures fIt.lst.contents == Swap(old(fIt.lst.contents), old(fIt.pos), old(rIt.pos) - 2)
  {
    var fVal := fIt.Next();
    var rVal := rIt.Next();
    fIt.Set(rVal);
    rIt.Set(fVal);
  }

  /** The chain position the write cursor of the compaction scan sits on
      once `kept` values are in place in a list of n values: the slot after
      them, or the last node when every value is kept. */
  function WriteSlot(kept: int, n: int): int
  {
    if kept < n then kept + 1 else n
  }

  /** The scan shared by Compact and CompactFunc. A read cursor walks every
      value; a write cursor trails it, and each value the eq test tells apart
      from the last value kept is written at the write cursor, which then
      moves on if it can. Lists of fewer than two values are left alone
      (`done`). Otherwise, on return, the first newSize values are the
      compacted contents, the rest are untouched, and the write cursor sits
      on chain position WriteSlot(newSize, n). */
  method CompactScan<T(0)>(l: List<T>, eq: (T, T) -> bool) returns (it1: FrwIter<T>, newSize: int, done: bool)
    requires l.Valid()
    modifies l, l.Repr
    ensures l.Valid() && l.chain == old(l.chain) && l.Repr == old(l.Repr)
    ensures done <==> |old(l.contents)| < 2
    ensures done ==> l.contents == old(l.contents)
    ensures !done ==> && it1.Attached() && it1.lst == l
                      && newSize == |CompactSeq(eq, old(l.contents))|
                      && it1.pos == WriteSlot(newSize, |old(l.contents)|)
                      && l.contents == CompactSeq(eq, old(l.contents)) + old(l.contents)[newSize..]
  {
    ghost var s := l.contents;
    ghost var n := |s|;
    newSize, done := 0, true;
    it1 := Iter(l);
    if !it1.HasNext() {
      return;
    }
    var last := it1.Next();
    newSize := 1;
    if !it1.HasNext() {
      return;
    }
    var _ := it1.Next();
    done := false;
    var it2 := Iter(l);
    var _ := it2.Next();
    newSize := CompactRest(l, eq, it1, it2, last, s);
  }

  /** The loop of the compaction scan, entered with the read cursor on the
      first value and the write cursor on the second. */
  method CompactRest<T(0)>(l: List<T>, eq: (T, T) -> bool, it1: FrwIter<T>, it2: FrwIter<T>, last0: T, ghost s: seq<T>)
    returns (newSize: int)
    requires it1 as object != it2 as object
    requires it1.Attached() && it1.lst == l && it2.Attached() && it2.lst == l
    requires it1.node != l.head && it1.node != l.tail
    requires |s| >= 2 && l.contents == s && it2.pos == 1 && it1.pos == 2 && last0 == s[0]
    modifies l, l.Repr, it1, it2
    ensures it1.Attached() && l.chain == old(l.chain) && l.Repr == old(l.Repr)
    ensures newSize == |CompactSeq(eq, s)| && it1.pos == WriteSlot(newSize, |s|)
    ensures l.contents == CompactSeq(eq, s) + s[newSize..]
  {
    ghost var n := |s|;
    var last := last0;
    newSize := 1;
    ghost var kept := [s[0]];
    assert s[..1] == kept;
    while it2.HasNext()
      invariant CompactInvariant(l, eq, it1, it2, last, newSize, s, kept)
      invariant l.chain == old(l.chain) && l.Repr == old(l.Repr)
      decreases n - it2.pos
    {
      last, newSize, kept := CompactStep(l, eq, it1, it2, last, newSize, s, kept);
    }
    assert s[..it2.pos] == s;
  }

  /** What holds between rounds of the compaction loop: both cursors are on
      the list, the values read so far compact to `kept`, which fills the
      first newSize slots while the rest are untouched, `last` is the last
      value kept, and the write cursor is on the slot after `kept`. */
  ghost predicate CompactInvariant<T(0)>(l: List<T>, eq: (T, T) -> bool, it1: FrwIter<T>, it2: FrwIter<T>,
                                        last: T, newSize: int, s: seq<T>, kept: seq<T>)
    reads l, l.Repr, it1, it2
  {
    && it1 as object != it2 as object
    && it1.lst == l && it2.lst == l && it1.Attached() && it2.Attached()
    && it1.node != l.head && it1.node != l.tail
    && 1 <= newSize <= it2.pos <= |s|
    && kept == CompactSeq(eq, s[..it2.pos])
    && newSize == |kept| && last == kept[newSize - 1]
    && l.contents == kept + s[newSize..]
    && it1.pos == WriteSlot(newSize, |s|)
  }

  /** One round of the compaction loop: read the next value and, when the
      eq test tells it apart from the last value kept, write it at the
      write cursor and advance that cursor. */
  method CompactStep<T(0)>(l: List<T>, eq: (T, T) -> bool, it1: FrwIter<T>, it2: FrwIter<T>,
                           last: T, newSize: int, ghost s: seq<T>, ghost kept: seq<T>)
    returns (last': T, newSize': int, ghost kept': seq<T>)
    requires CompactInvariant(l, eq, it1, it2, last, newSize, s, kept) && it2.HasNext()
    modifies l, l.Repr, it1, it2
    ensures CompactInvariant(l, eq, it1, it2, last', newSize', s, kept')
    ensures it2.pos == old(it2.pos) + 1
    ensures l.chain == old(l.chain) && l.Repr == old(l.Repr)
  {
    ghost var j := it2.pos;
    var v := it2.Next();
    assert v == s[j];
    CompactSeqStep(eq, s, j);
    last', newSize', kept' := last, newSize, kept;
    if !eq(v, last) {
      newSize', kept' := CompactKeep(l, eq, it1, it2, v, newSize, s, kept);
      last' := v;
    }
  }

  /** The write half of a compaction round: v, just read from position
      it2.pos - 1, is kept at the write cursor. */
  method CompactKeep<T(0)>(l: List<T>, eq: (T, T) -> bool, it1: FrwIter<T>, it2: FrwIter<T>,
                           v: T, newSize: int, ghost s: seq<T>, ghost kept: seq<T>)
    returns (newSize': int, ghost kept': seq<T>)
    requires it1 as object != it2 as object
    requires it1.lst == l && it2.lst == l && it1.Attached() && it2.Attached()
    requires it1.node != l.head && it1.node != l.tail
    requires 1 <= newSize < it2.pos <= |s| && newSize == |kept|
    requires kept + [v] == CompactSeq(eq, s[..it2.pos])
    requires l.contents == kept + s[newSize..]
    requires it1.pos == WriteSlot(newSize, |s|)
    modifies l, l.Repr, it1
    ensures CompactInvariant(l, eq, it1, it2, v, newSize', s, kept')
    ensures l.chain == old(l.chain) && l.Repr == old(l.Repr)
  {
    SetAndStep(it1, v);
    assert l.contents == kept + [v] + s[newSize + 1..];
    newSize', kept' := newSize + 1, kept + [v];
  }

  /** Overwrite the value under a forward iterator, then move it on unless
      it is on the last real node. */
  method SetAndStep<T(0)>(it: FrwIter<T>, val: T)
    requires it.Attached() && it.node != it.lst.head && it.node != it.lst.tail
    modifies it, it.lst, it.lst.Repr
    ensures it.Attached() && it.node != it.lst.head && it.node != it.lst.tail
    ensures it.lst.chain == old(it.lst.chain) && it.lst.Repr == old(it.lst.Repr)
    ensures it.lst.contents == old(it.lst.contents)[old(it.pos) - 1 := val]
    ensures it.pos == WriteSlot(old(it.pos), |it.lst.contents|)
  {
    it.Set(val);
    if it.HasNext() {
      var _ := it.Next();
    }
  }

  /** Replace every run of neighbours the eq test relates with its first
      value, as the scan finds them. Nodes past the compacted values are
      unlinked, and only when there are any. */
  method CompactFunc<T(0)>(l: List<T>, eq: (T, T) -> bool)
    requires l.Valid()
    modifies l, l.Repr
    ensures l.Valid() && l.Repr == old(l.Repr)
    ensures l.contents == CompactSeq(eq, old(l.contents))
    ensures l.chain == old(l.chain)[..|l.contents| + 1] + [old(l.tail)]
  {
    ghost var s, c := l.contents, l.chain;
    var it1, newSize, done := CompactScan(l, eq);
    if done {
      assert c == c[..|s| + 1] + [c[|c| - 1]];
      return;
    }
    if newSize < l.size {
      assert l.chain == c && it1.pos == newSize + 1;
      l.TruncateAt(it1.node, newSize, it1.pos);
      assert |l.contents| == newSize && l.tail == c[|c| - 1];
      assert l.chain == c[..newSize + 1] + [c[|c| - 1]];
    } else {
      assert l.contents == CompactSeq(eq, s);
      assert c == c[..|s| + 1] + [c[|c| - 1]];
    }
  }

  /** Compact with ==: every run of equal neighbours becomes one value. */
  method Compact<T(0, ==)>(l: List<T>)
    requires l.Valid()
    modifies l, l.Repr
    ensures l.Valid() && l.Repr == old(l.Repr)
    ensures l.contents == CompactSeq(Gcl.Equal, old(l.contents))
    ensures l.chain == old(l.chain)[..|l.contents| + 1] + [old(l.tail)]
  {
    CompactFunc(l, Gcl.Equal);
  }

  /** How many real nodes the source's unconditional unlinking leaves in a
      list of n values of which `kept` survive compaction: it always drops
      the node under the write cursor, which is the last kept one when
      nothing was dropped. */
  function CompactCutAsWritten(kept: int, n: int): int
  {
    if n < 2 then n else WriteSlot(kept, n) - 1
  }

  /** CompactFunc as the source writes it: after the scan it always unlinks
      the node under the write cursor and everything after it. */
  method CompactFuncAsWritten<T(0)>(l: List<T>, eq: (T, T) -> bool)
    requires l.Valid()
    modifies l, l.Repr
    ensures l.Valid() <==> |old(l.contents)| < 2 || HasAdjacentEq(eq, old(l.contents))
    ensures l.contents == CompactSeq(eq, old(l.contents))[..CompactCutAsWritten(|CompactSeq(eq, old(l.contents))|, |old(l.contents)|)]
    ensures l.size == |CompactSeq(eq, old(l.contents))|
  {
    ghost var s := l.contents;
    CompactShrinksIff(eq, s);
    var it1, newSize, done := CompactScan(l, eq);
    if done {
      assert CompactSeq(eq, s) == s;
      return;
    }
    l.TruncateAt(it1.node, newSize, it1.pos);
  }

  /** On a list of at least two values with no related neighbours, the
      source's Compact keeps one node fewer than its size field claims. */
  lemma CompactAsWrittenLosesLast<T>(eq: (T, T) -> bool, s: seq<T>)
    requires |s| >= 2 && !HasAdjacentEq(eq, s)
    ensures CompactCutAsWritten(|CompactSeq(eq, s)|, |s|) == |CompactSeq(eq, s)| - 1
  {
    CompactShrinksIff(eq, s);
  }

  /** One step of overwriting a list front to back with the values of p. */
  lemma OverwriteStep<T>(p: seq<T>, q: seq<T>, i: nat)
    requires |p| == |q| && i < |p|
    ensures (p[..i] + q[i..])[i := p[i]] == p[..i + 1] + q[i + 1..]
  {
  }
}
