/** The comparator helpers and the small record types shared by the other
    modules. The ordered element type is modelled as int. */
module Gcl {

  /** A less-than test between two values. */
  type LessFn<!T> = (T, T) -> bool

  /** An equality test between values of two types. */
  type EqualFn<!T1, !T2> = (T1, T2) -> bool

  /** A three-way comparison between values of two types. */
  type CompareFn<!T1, !T2> = (T1, T2) -> int

  /** A pair produced by zipping two iterators. */
  datatype Zipped<T1, T2> = Zipped(first: T1, second: T2)

  /** True when a is strictly less than b. */
  function Less(a: int, b: int): bool
  {
    a < b
  }

  /** True when a is strictly greater than b. */
  function Greater(a: int, b: int): bool
  {
    a > b
  }

  /** True when a and b are the same value. */
  function Equal<T(==)>(a: T, b: T): bool
  {
    a == b
  }

  /** Three-way comparison: -1 below, 0 equal, +1 above. */
  function Compare(a: int, b: int): (r: int)
    ensures r == -1 || r == 0 || r == 1
    ensures r == -1 <==> Less(a, b)
    ensures r == 0 <==> Equal(a, b)
    ensures r == 1 <==> Greater(a, b)
  {
    if a < b then -1
    else if a == b then 0
    else 1
  }

  /** Greater is Less with its arguments exchanged. */
  lemma GreaterIsFlippedLess(a: int, b: int)
    ensures Greater(a, b) == Less(b, a)
  {
  }

  /** Exchanging the arguments of Compare negates its result. */
  lemma CompareAntisymmetric(a: int, b: int)
    ensures Compare(a, b) == -Compare(b, a)
  {
  }

  /** Less, Greater and Equal split every pair of integers: exactly one holds. */
  lemma Trichotomy(a: int, b: int)
    ensures Less(a, b) || Equal(a, b) || Greater(a, b)
    ensures !(Less(a, b) && Equal(a, b)) && !(Less(a, b) && Greater(a, b)) && !(Equal(a, b) && Greater(a, b))
  {
  }
}
