/** The iterator protocol and the algorithms written on top of it.

    An iterator is modelled by the sequence of values it has still to produce.
    HasNext is "that sequence is non-empty" and Next removes and returns its
    first element; every concrete iterator of the library (list cursors, slice
    cursors, the Map, Filter and Zip wrappers below) keeps the same contract
    over its own Rest(). */
module Iters {
  import Gcl
  import opened Seqs

  /** The general iterator: `rest` is what it will still produce, in order. */
  class Iterator<T> {
    var rest: seq<T>

    /** Whether the iterator can advance. */
    predicate HasNext()
      reads this
    {
      |rest| > 0
    }

    /** Advance and return the next value in iteration order. */
    method Next() returns (v: T)
      requires HasNext()
      modifies this
      ensures v == old(rest)[0] && rest == old(rest)[1..]
    {
      v := rest[0];
      rest := rest[1..];
    }
  }

  function Smaller(a: int, b: int): int {
    if a < b then a else b
  }

  /** Advance `it` n steps, stopping early when it runs out. */
  method Advance<T>(it: Iterator<T>, n: nat)
    modifies it
    ensures it.rest == old(it.rest)[Smaller(n, |old(it.rest)|)..]
    ensures n >= |old(it.rest)| ==> !it.HasNext()
    ensures n == 0 ==> it.rest == old(it.rest)
  {
    ghost var s := it.rest;
    var i := 0;
    while i < n && it.HasNext()
      invariant i <= n && i <= |s|
      invariant it.rest == s[i..]
      decreases n - i
    {
      var _ := it.Next();
      i := i + 1;
    }
  }

  /** Call fn on each remaining element, in order; the calls' results are
      returned as the trace of what fn was given. */
  method ForEach<T, R>(it: Iterator<T>, fn: T -> R) returns (calls: seq<R>)
    modifies it
    ensures calls == MapSeq(fn, old(it.rest))
    ensures !it.HasNext()
  {
    ghost var s := it.rest;
    calls := [];
    while it.HasNext()
      invariant |it.rest| <= |s| && it.rest == s[|s| - |it.rest|..]
      invariant calls == MapSeq(fn, s[..|s| - |it.rest|])
      decreases |it.rest|
    {
      ghost var k := |s| - |it.rest|;
      var v := it.Next();
      assert s[..k + 1] == s[..k] + [v];
      MapSeqSnoc(fn, s[..k], v);
      calls := calls + [fn(v)];
    }
    assert s[..|s|] == s;
  }

  /** Mapping one more element at the end appends its image. */
  lemma {:induction false} MapSeqSnoc<T, R>(fn: T -> R, s: seq<T>, x: T)
    ensures MapSeq(fn, s + [x]) == MapSeq(fn, s) + [fn(x)]
  {
    var a, b := MapSeq(fn, s + [x]), MapSeq(fn, s) + [fn(x)];
    assert forall i :: 0 <= i < |a| ==> a[i] == b[i];
  }

  /** Element-wise comparison of two iterators under eq. The result is true
      exactly when both have the same remaining length and eq holds pairwise;
      each side is advanced by EqualSteps: up to the first mismatch (included),
      and never further than the shorter side. */
  method EqualFunc<T1, T2>(it1: Iterator<T1>, it2: Iterator<T2>, eq: (T1, T2) -> bool) returns (r: bool)
    requires it1 as object != it2 as object
    modifies it1, it2
    ensures r == EqualBy(eq, old(it1.rest), old(it2.rest))
    ensures var k := EqualSteps(eq, old(it1.rest), old(it2.rest));
      it1.rest == old(it1.rest)[k..] && it2.rest == old(it2.rest)[k..]
  {
    ghost var a, b := it1.rest, it2.rest;
    ghost var k := 0;
    while it1.HasNext() && it2.HasNext()
      invariant k <= |a| && k <= |b|
      invariant it1.rest == a[k..] && it2.rest == b[k..]
      invariant forall i :: 0 <= i < k ==> eq(a[i], b[i])
      invariant EqualSteps(eq, a, b) == k + EqualSteps(eq, a[k..], b[k..])
      decreases |it1.rest|
    {
      var v1 := it1.Next();
      var v2 := it2.Next();
      assert a[k..][1..] == a[k + 1..] && b[k..][1..] == b[k + 1..];
      if !eq(v1, v2) {
        k := k + 1;
        return false;
      }
      k := k + 1;
    }
    if it1.HasNext() || it2.HasNext() {
      return false;
    }
    return true;
  }

  /** Equal is EqualFunc with ==: true exactly when the remaining sequences are equal. */
  method Equal<T(==)>(it1: Iterator<T>, it2: Iterator<T>) returns (r: bool)
    requires it1 != it2
    modifies it1, it2
    ensures r <==> old(it1.rest) == old(it2.rest)
    ensures var k := EqualSteps(Gcl.Equal, old(it1.rest), old(it2.rest));
      it1.rest == old(it1.rest)[k..] && it2.rest == old(it2.rest)[k..]
  {
    EqualByEq(it1.rest, it2.rest);
    r := EqualFunc(it1, it2, Gcl.Equal);
  }

  /** A lazy mapping wrapper: it yields fn of each value of the wrapped iterator. */
  class MapIter<T, V> {
    const wrapped: Iterator<T>
    const fn: T -> V

    constructor (it: Iterator<T>, fn: T -> V)
      ensures wrapped == it && this.fn == fn
    {
      wrapped := it;
      this.fn := fn;
    }

    /** What the wrapper will still produce. */
    ghost function Rest(): seq<V>
      reads this, wrapped
    {
      MapSeq(fn, wrapped.rest)
    }

    predicate HasNext()
      reads this, wrapped
      ensures HasNext() <==> |Rest()| > 0
    {
      wrapped.HasNext()
    }

    method Next() returns (v: V)
      requires HasNext()
      modifies wrapped
      ensures v == old(Rest())[0] && Rest() == old(Rest())[1..]
      ensures wrapped.rest == old(wrapped.rest)[1..]
    {
      var x := wrapped.Next();
      v := fn(x);
    }
  }

  /** Map builds the wrapper and consumes nothing from `it`. */
  method Map<T, V>(it: Iterator<T>, fn: T -> V) returns (m: MapIter<T, V>)
    ensures fresh(m) && m.wrapped == it && m.fn == fn
    ensures m.Rest() == MapSeq(fn, it.rest)
  {
    m := new MapIter(it, fn);
  }

  /** Reduce: the zero value on an empty iterator, otherwise the left fold of
      fn seeded with the first element. Exhausts `it`. */
  method Reduce<T>(it: Iterator<T>, fn: (T, T) -> T, zero: T) returns (acc: T)
    modifies it
    ensures acc == Reduced(fn, zero, old(it.rest))
    ensures !it.HasNext()
  {
    ghost var s := it.rest;
    if !it.HasNext() {
      return zero;
    }
    acc := it.Next();
    while it.HasNext()
      invariant FoldLeft(fn, acc, it.rest) == FoldLeft(fn, s[0], s[1..])
      decreases |it.rest|
    {
      var v := it.Next();
      acc := fn(acc, v);
    }
  }

  /** Fold: the left fold of fn starting at init. Exhausts `it`. */
  method Fold<T, V>(it: Iterator<T>, fn: (V, T) -> V, init: V) returns (acc: V)
    modifies it
    ensures acc == FoldLeft(fn, init, old(it.rest))
    ensures !it.HasNext()
  {
    ghost var s := it.rest;
    acc := init;
    while it.HasNext()
      invariant FoldLeft(fn, acc, it.rest) == FoldLeft(fn, init, s)
      decreases |it.rest|
    {
      var v := it.Next();
      acc := fn(acc, v);
    }
  }

  /** The look-ahead state of a filtering iterator. */
  datatype NextState = Unknown | HasNextValue | NoNext

  /** A lazy filtering wrapper with a one-value look-ahead buffer. */
  class FilterIter<T(0)> {
    const wrapped: Iterator<T>
    const pred: T -> bool
    var state: NextState
    var next: T

    constructor (it: Iterator<T>, pred: T -> bool)
      ensures wrapped == it && this.pred == pred && state == Unknown
    {
      wrapped := it;
      this.pred := pred;
      state := Unknown;
    }

    /** The state is consistent: once no further match was found, the
        wrapped iterator is exhausted. */
    ghost predicate Valid()
      reads this, wrapped
    {
      state == NoNext ==> wrapped.rest == []
    }

    /** What the wrapper will still produce: the buffered value, if any,
        then the matching values still in the wrapped iterator. */
    ghost function Rest(): seq<T>
      reads this, wrapped
    {
      (if state == HasNextValue then [next] else []) + FilterSeq(pred, wrapped.rest)
    }

    /** Pull from the wrapped iterator up to and including the next match. */
    method FindNext()
      requires state == Unknown
      modifies this, wrapped
      ensures Valid() && state != Unknown
      ensures Rest() == old(Rest())
      ensures Pulled(old(wrapped.rest))
    {
      ghost var s := FilterSeq(pred, wrapped.rest);
      ghost var w0 := wrapped.rest;
      while wrapped.HasNext()
        invariant Scanning(s, w0)
        decreases |wrapped.rest|
      {
        var found := PullOne(s, w0);
        if found {
          return;
        }
      }
      state := NoNext;
    }

    /** Loop state of FindNext: from w0, whose matches are s, only values
        that do not match have been pulled so far. */
    ghost predicate Scanning(s: seq<T>, w0: seq<T>)
      reads this, wrapped
    {
      && state == Unknown
      && FilterSeq(pred, wrapped.rest) == s
      && |wrapped.rest| <= |w0| && wrapped.rest == w0[|w0| - |wrapped.rest|..]
      && forall i :: 0 <= i < |w0| - |wrapped.rest| ==> !pred(w0[i])
    }

    /** One pull of FindNext: buffers the pulled value if it matches. */
    method PullOne(ghost s: seq<T>, ghost w0: seq<T>) returns (found: bool)
      requires Scanning(s, w0) && wrapped.rest != []
      modifies this, wrapped
      ensures found ==> state == HasNextValue && Rest() == s && Pulled(w0)
      ensures !found ==> Scanning(s, w0) && |wrapped.rest| < |old(wrapped.rest)|
    {
      ghost var w := wrapped.rest;
      var v := wrapped.Next();
      assert w == [v] + wrapped.rest;
      found := pred(v);
      if found {
        FirstIndexAt(pred, w0, |w0| - |w|);
        state := HasNextValue;
        next := v;
      }
    }

    /** Where a look-ahead leaves the wrapped iterator, which held w before
        it: just past the first match, buffered as `next`, or exhausted when
        there is no match. */
    ghost predicate Pulled(w: seq<T>)
      reads this, wrapped
    {
      var k := FirstIndex(pred, w);
      && (state == HasNextValue ==> 0 <= k && next == w[k] && wrapped.rest == w[k + 1..])
      && (state == NoNext ==> k == -1 && wrapped.rest == [])
    }

    /** Whether a further match exists; it pulls from the wrapped iterator only
        while no look-ahead has been done since the last Next. */
    method HasNext() returns (b: bool)
      requires Valid()
      modifies this, wrapped
      ensures Valid() && state != Unknown
      ensures b <==> |Rest()| > 0
      ensures Rest() == old(Rest())
      ensures old(state) != Unknown ==> wrapped.rest == old(wrapped.rest) && state == old(state)
      ensures old(state) == Unknown ==> Pulled(old(wrapped.rest))
    {
      if state == Unknown {
        FindNext();
      }
      if state == HasNextValue {
        return true;
      }
      return false;
    }

    /** The next match; its buffer is emptied so that the following HasNext or
        Next looks further ahead. */
    method Next() returns (v: T)
      requires Valid() && |Rest()| > 0
      modifies this, wrapped
      ensures Valid() && state == Unknown
      ensures v == old(Rest())[0] && Rest() == old(Rest())[1..]
      ensures old(state) != Unknown ==> wrapped.rest == old(wrapped.rest)
      ensures old(state) == Unknown ==> var k := FirstIndex(pred, old(wrapped.rest));
        0 <= k && v == old(wrapped.rest)[k] && wrapped.rest == old(wrapped.rest)[k + 1..]
    {
      if state == Unknown {
        FindNext();
      }
      state := Unknown;
      v := next;
    }
  }

  /** Filter builds the wrapper and consumes nothing from `it`. */
  method Filter<T(0)>(it: Iterator<T>, pred: T -> bool) returns (f: FilterIter<T>)
    ensures fresh(f) && f.wrapped == it && f.pred == pred
    ensures f.Valid() && f.Rest() == FilterSeq(pred, it.rest)
  {
    f := new FilterIter(it, pred);
  }

  /** Find: advance to the first element satisfying pred and return it with
      true, leaving `it` just past it; otherwise return zero with false and
      leave `it` exhausted. */
  method Find<T>(it: Iterator<T>, pred: T -> bool, zero: T) returns (t: T, ok: bool)
    modifies it
    ensures var k := FirstIndex(pred, old(it.rest));
      && (ok <==> k >= 0)
      && (ok ==> t == old(it.rest)[k] && it.rest == old(it.rest)[k + 1..])
      && (!ok ==> t == zero && it.rest == [])
  {
    ghost var s := it.rest;
    t, ok := zero, false;
    while it.HasNext()
      invariant |it.rest| <= |s| && it.rest == s[|s| - |it.rest|..]
      invariant forall i :: 0 <= i < |s| - |it.rest| ==> !pred(s[i])
      decreases |it.rest|
    {
      var v := it.Next();
      if pred(v) {
        t, ok := v, true;
        return;
      }
    }
  }

  /** Exchange the arguments of a binary test. */
  function Flip<T>(less: (T, T) -> bool): (T, T) -> bool
  {
    (a: T, b: T) => less(b, a)
  }

  /** The maximum by less: zero when empty, otherwise the running scan in
      which each value replaces the candidate when the candidate is less. */
  function MaxBy<T>(less: (T, T) -> bool, zero: T, s: seq<T>): T {
    if s == [] then zero else Extremum(less, s[0], s[1..])
  }

  /** The minimum by less: the same scan, replacing when the value is less. */
  function MinBy<T>(less: (T, T) -> bool, zero: T, s: seq<T>): T {
    if s == [] then zero else Extremum(Flip(less), s[0], s[1..])
  }

  /** Running scan shared by MaxFunc and MinFunc. */
  method ExtremumFunc<T>(it: Iterator<T>, replace: (T, T) -> bool, zero: T) returns (m: T)
    modifies it
    ensures m == (if old(it.rest) == [] then zero else Extremum(replace, old(it.rest)[0], old(it.rest)[1..]))
    ensures !it.HasNext()
  {
    ghost var s := it.rest;
    if !it.HasNext() {
      return zero;
    }
    m := it.Next();
    while it.HasNext()
      invariant Extremum(replace, m, it.rest) == Extremum(replace, s[0], s[1..])
      decreases |it.rest|
    {
      var v := it.Next();
      if replace(m, v) {
        m := v;
      }
    }
  }

  /** The maximum under less; zero on an empty iterator. Exhausts `it`. */
  method MaxFunc<T>(it: Iterator<T>, less: (T, T) -> bool, zero: T) returns (m: T)
    modifies it
    ensures m == MaxBy(less, zero, old(it.rest))
    ensures !it.HasNext()
  {
    m := ExtremumFunc(it, less, zero);
  }

  /** The minimum under less; zero on an empty iterator. Exhausts `it`. */
  method MinFunc<T>(it: Iterator<T>, less: (T, T) -> bool, zero: T) returns (m: T)
    modifies it
    ensures m == MinBy(less, zero, old(it.rest))
    ensures !it.HasNext()
  {
    m := ExtremumFunc(it, Flip(less), zero);
  }

  /** The largest remaining integer; 0 on an empty iterator. */
  method Max(it: Iterator<int>) returns (m: int)
    modifies it
    ensures m == MaxBy(Gcl.Less, 0, old(it.rest))
    ensures !it.HasNext()
  {
    m := MaxFunc(it, Gcl.Less, 0);
  }

  /** The smallest remaining integer; 0 on an empty iterator. */
  method Min(it: Iterator<int>) returns (m: int)
    modifies it
    ensures m == MinBy(Gcl.Less, 0, old(it.rest))
    ensures !it.HasNext()
  {
    m := MinFunc(it, Gcl.Less, 0);
  }

  /** The maximum of a non-empty integer sequence is one of its elements and
      no element exceeds it; of the empty sequence it is 0. */
  lemma MaxByIsMaximum(s: seq<int>)
    ensures s == [] ==> MaxBy(Gcl.Less, 0, s) == 0
    ensures s != [] ==> MaxBy(Gcl.Less, 0, s) in s
    ensures forall x :: x in s ==> x <= MaxBy(Gcl.Less, 0, s)
  {
    if s != [] {
      ExtremumIsBound(Gcl.Less, s[0], s[1..]);
      assert forall x :: x in s ==> x == s[0] || x in s[1..];
    }
  }

  /** The minimum of a non-empty integer sequence is one of its elements and
      no element is below it; of the empty sequence it is 0. */
  lemma MinByIsMinimum(s: seq<int>)
    ensures s == [] ==> MinBy(Gcl.Less, 0, s) == 0
    ensures s != [] ==> MinBy(Gcl.Less, 0, s) in s
    ensures forall x :: x in s ==> MinBy(Gcl.Less, 0, s) <= x
  {
    if s != [] {
      var r := Extremum(Flip(Gcl.Less), s[0], s[1..]);
      ExtremumIsBound(Flip(Gcl.Less), s[0], s[1..]);
      assert forall x :: x in s ==> x == s[0] || x in s[1..];
      assert forall x :: x in s ==> !Flip(Gcl.Less)(r, x);
      assert forall x :: x in s ==> !Gcl.Less(x, r);
      assert r == MinBy(Gcl.Less, 0, s);
    }
  }

  /** The sum of the remaining integers, starting from 0. Exhausts `it`. */
  method Sum(it: Iterator<int>) returns (sum: int)
    modifies it
    ensures sum == SumSeq(old(it.rest))
    ensures !it.HasNext()
  {
    ghost var s := it.rest;
    sum := 0;
    while it.HasNext()
      invariant sum + SumSeq(it.rest) == SumSeq(s)
      decreases |it.rest|
    {
      var v := it.Next();
      sum := sum + v;
    }
  }

  /** Pairs of corresponding elements, as many as the shorter side has. */
  function ZipSeq<T1, T2>(a: seq<T1>, b: seq<T2>): (r: seq<Gcl.Zipped<T1, T2>>)
    ensures |r| == Smaller(|a|, |b|)
    ensures forall i :: 0 <= i < |r| ==> r[i] == Gcl.Zipped(a[i], b[i])
  {
    if a == [] || b == [] then [] else [Gcl.Zipped(a[0], b[0])] + ZipSeq(a[1..], b[1..])
  }

  /** Projecting the first components of a zip gives back the first input,
      cut to the length of the shorter one (and likewise for the second). */
  lemma ZipProjections<T1, T2>(a: seq<T1>, b: seq<T2>)
    ensures MapSeq((z: Gcl.Zipped<T1, T2>) => z.first, ZipSeq(a, b)) == a[..Smaller(|a|, |b|)]
    ensures MapSeq((z: Gcl.Zipped<T1, T2>) => z.second, ZipSeq(a, b)) == b[..Smaller(|a|, |b|)]
  {
  }

  /** A wrapper yielding pairs from two iterators until either runs out. */
  class ZipIter<T1, T2> {
    const it1: Iterator<T1>
    const it2: Iterator<T2>

    constructor (it1: Iterator<T1>, it2: Iterator<T2>)
      ensures this.it1 == it1 && this.it2 == it2
    {
      this.it1 := it1;
      this.it2 := it2;
    }

    /** What the wrapper will still produce. */
    ghost function Rest(): seq<Gcl.Zipped<T1, T2>>
      reads this, it1, it2
    {
      ZipSeq(it1.rest, it2.rest)
    }

    predicate HasNext()
      reads this, it1, it2
      ensures HasNext() <==> |Rest()| > 0
    {
      it1.HasNext() && it2.HasNext()
    }

    method Next() returns (v: Gcl.Zipped<T1, T2>)
      requires it1 as object != it2 as object
      requires HasNext()
      modifies it1, it2
      ensures v == old(Rest())[0] && Rest() == old(Rest())[1..]
      ensures it1.rest == old(it1.rest)[1..] && it2.rest == old(it2.rest)[1..]
    {
      var a := it1.Next();
      var b := it2.Next();
      v := Gcl.Zipped(a, b);
      assert ZipSeq(old(it1.rest), old(it2.rest))[1..] == ZipSeq(it1.rest, it2.rest);
    }
  }

  /** Zip builds the wrapper and consumes nothing from either input. */
  method Zip<T1, T2>(it1: Iterator<T1>, it2: Iterator<T2>) returns (z: ZipIter<T1, T2>)
    ensures fresh(z) && z.it1 == it1 && z.it2 == it2
    ensures z.Rest() == ZipSeq(it1.rest, it2.rest)
  {
    z := new ZipIter(it1, it2);
  }
}
