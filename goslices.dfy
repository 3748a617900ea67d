/** Iterators over slices and small slice helpers. */
module GoSlices {
  import opened Seqs
  import Iters
  import SliceIters
  import Internal

  /** A forward cursor one before the first element: it yields s in order. */
  method Iter<T>(s: seq<T>) returns (it: SliceIters.FrwIter<T>)
    ensures fresh(it) && it.slice == s && it.index == -1
    ensures it.Valid() && it.Rest() == s
  {
    it := new SliceIters.FrwIter(s, -1);
  }

  /** A mutable forward cursor one before the first cell of s. */
  method IterMut<T>(s: array<T>) returns (it: SliceIters.FrwIterMut<T>)
    ensures fresh(it) && it.slice == s && it.index == -1
    ensures it.Valid() && it.Remaining() == s.Length
  {
    it := new SliceIters.FrwIterMut(s, -1);
  }

  /** A reverse cursor one past the last element: it yields s back to front. */
  method RIter<T>(s: seq<T>) returns (it: SliceIters.RevIter<T>)
    ensures fresh(it) && it.slice == s && it.index == |s|
    ensures it.Valid() && it.Rest() == Reversed(s)
  {
    it := new SliceIters.RevIter(s, |s|);
    assert s[..|s|] == s;
  }

  /** A mutable reverse cursor one past the last cell of s. */
  method RIterMut<T>(s: array<T>) returns (it: SliceIters.RevIterMut<T>)
    ensures fresh(it) && it.slice == s && it.index == s.Length
    ensures it.Valid()
  {
    it := new SliceIters.RevIterMut(s, s.Length);
  }

  /** Collect what an iterator still produces, in order; it is left exhausted. */
  method FromIter<T>(it: Iters.Iterator<T>) returns (res: seq<T>)
    modifies it
    ensures res == old(it.rest)
    ensures !it.HasNext()
  {
    ghost var s := it.rest;
    res := [];
    while it.HasNext()
      invariant res + it.rest == s
      decreases |it.rest|
    {
      var v := it.Next();
      res := res + [v];
    }
  }

  /** elems placed in front of s. */
  function PushFront<T>(s: seq<T>, elems: seq<T>): (r: seq<T>)
    ensures |r| == |elems| + |s|
    ensures r[..|elems|] == elems && r[|elems|..] == s
  {
    elems + s
  }

  /** s without its last element. */
  function PopBack<T>(s: seq<T>): (r: seq<T>)
    requires |s| > 0
    ensures |r| == |s| - 1
    ensures forall i :: 0 <= i < |r| ==> r[i] == s[i]
  {
    s[0..|s| - 1]
  }

  /** s without its first element. */
  function PopFront<T>(s: seq<T>): (r: seq<T>)
    requires |s| > 0
    ensures |r| == |s| - 1
    ensures forall i :: 0 <= i < |r| ==> r[i] == s[i + 1]
  {
    s[1..]
  }

  /** The first element of s. */
  function Front<T>(s: seq<T>): T
    requires |s| > 0
  {
    s[0]
  }

  /** The last element of s. */
  function Back<T>(s: seq<T>): T
    requires |s| > 0
  {
    s[|s| - 1]
  }

  /** A non-empty slice is its front followed by what PopFront leaves, and
      what PopBack leaves followed by its back. */
  lemma FrontBackSplit<T>(s: seq<T>)
    requires |s| > 0
    ensures [Front(s)] + PopFront(s) == s
    ensures PopBack(s) + [Back(s)] == s
  {
  }

  /** Popping what was pushed in front gives back the original slice, and
      the new front is the first pushed element. */
  lemma PushFrontThenPop<T>(s: seq<T>, x: T)
    ensures Front(PushFront(s, [x])) == x
    ensures PopFront(PushFront(s, [x])) == s
  {
  }

  /** Reverse s in place with the two-cursor swap over a forward and a
      reverse mutable cursor. */
  method Reverse<T>(s: array<T>)
    modifies s
    ensures s[..] == Reversed(old(s[..]))
  {
    var fIt := IterMut(s);
    var rIt := RIterMut(s);
    Internal.Reverse(fIt, rIt, s.Length);
    if s.Length > 0 {
      SwapHalfReverses(old(s[..]));
    } else {
      assert s[..] == [];
    }
  }
}
