/** Index-based cursors over a slice. The forward cursors start one before the
    first element and step up; the reverse cursors start one past the last
    element and step down. The read-only cursors see the slice as a value;
    the mutable ones hand out references to the cells of an array. */
module SliceIters {
  import opened Seqs

  /** A reference to one cell of an array, the model of a *T into a slice. */
  datatype Ref<T> = Ref(arr: array<T>, idx: int)

  /** The value a reference points to. */
  function Load<T>(r: Ref<T>): T
    requires 0 <= r.idx < r.arr.Length
    reads r.arr
  {
    r.arr[r.idx]
  }

  /** Write through a reference: exactly the referenced cell changes. */
  method Store<T>(r: Ref<T>, v: T)
    requires 0 <= r.idx < r.arr.Length
    modifies r.arr
    ensures r.arr[..] == old(r.arr[..])[r.idx := v]
    ensures Load(r) == v
  {
    r.arr[r.idx] := v;
  }

  /** Forward cursor over a slice. */
  class FrwIter<T> {
    const slice: seq<T>
    var index: int

    constructor (s: seq<T>, index: int)
      ensures slice == s && this.index == index
    {
      slice := s;
      this.index := index;
    }

    /** The cursor is at most one before the first and at most on the last element. */
    ghost predicate Valid()
      reads this
    {
      -1 <= index < |slice|
    }

    /** The elements still to be produced, front to back. */
    ghost function Rest(): seq<T>
      requires Valid()
      reads this
    {
      slice[index + 1..]
    }

    predicate HasNext()
      reads this
      ensures Valid() ==> (HasNext() <==> |Rest()| > 0)
    {
      index + 1 < |slice|
    }

    /** Step up and return the element there; the access is in range exactly
        when it is demanded to be. */
    method Next() returns (v: T)
      requires 0 <= index + 1 < |slice|
      modifies this
      ensures Valid() && index == old(index) + 1
      ensures v == old(Rest())[0] && Rest() == old(Rest())[1..]
    {
      index := index + 1;
      v := slice[index];
    }
  }

  /** Reverse cursor over a slice. */
  class RevIter<T> {
    const slice: seq<T>
    var index: int

    constructor (s: seq<T>, index: int)
      ensures slice == s && this.index == index
    {
      slice := s;
      this.index := index;
    }

    /** The cursor is at most one past the last and at least on the first element. */
    ghost predicate Valid()
      reads this
    {
      0 <= index <= |slice|
    }

    /** The elements still to be produced, back to front. */
    ghost function Rest(): seq<T>
      requires Valid()
      reads this
    {
      Reversed(slice[..index])
    }

    predicate HasNext()
      reads this
      ensures Valid() ==> (HasNext() <==> |Rest()| > 0)
    {
      index > 0
    }

    /** Step down and return the element there. */
    method Next() returns (v: T)
      requires 0 <= index - 1 < |slice|
      modifies this
      ensures Valid() && index == old(index) - 1
      ensures v == old(Rest())[0] && Rest() == old(Rest())[1..]
    {
      ReversedPrefixTail(slice, index);
      index := index - 1;
      v := slice[index];
    }
  }

  /** Forward cursor that returns references to the cells of an array. */
  class FrwIterMut<T> {
    const slice: array<T>
    var index: int

    constructor (s: array<T>, index: int)
      ensures slice == s && this.index == index
    {
      slice := s;
      this.index := index;
    }

    ghost predicate Valid()
      reads this
    {
      -1 <= index < slice.Length
    }

    /** How many references are still to be produced. */
    function Remaining(): int
      reads this
    {
      slice.Length - index - 1
    }

    predicate HasNext()
      reads this
      ensures HasNext() <==> Remaining() > 0
    {
      index + 1 < slice.Length
    }

    /** Step up and return a reference to the cell there. */
    method Next() returns (r: Ref<T>)
      requires 0 <= index + 1 < slice.Length
      modifies this
      ensures Valid() && index == old(index) + 1
      ensures r == Ref(slice, index) && 0 <= r.idx < r.arr.Length
    {
      index := index + 1;
      r := Ref(slice, index);
    }
  }

  /** Reverse cursor that returns references to the cells of an array. */
  class RevIterMut<T> {
    const slice: array<T>
    var index: int

    constructor (s: array<T>, index: int)
      ensures slice == s && this.index == index
    {
      slice := s;
      this.index := index;
    }

    ghost predicate Valid()
      reads this
    {
      0 <= index <= slice.Length
    }

    /** How many references are still to be produced. */
    function Remaining(): int
      reads this
    {
      index
    }

    predicate HasNext()
      reads this
      ensures HasNext() <==> Remaining() > 0
    {
      index > 0
    }

    /** Step down and return a reference to the cell there. */
    method Next() returns (r: Ref<T>)
      requires 0 <= index - 1 < slice.Length
      modifies this
      ensures Valid() && index == old(index) - 1
      ensures r == Ref(slice, index) && 0 <= r.idx < r.arr.Length
    {
      index := index - 1;
      r := Ref(slice, index);
    }
  }
}
