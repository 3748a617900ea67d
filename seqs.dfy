/** Sequence-level definitions that specify the iterator algorithms, the list
    operations and the slice helpers, with the lemmas that say what they mean. */
module Seqs {
  import Gcl

  /** The sequence s read from its end to its beginning. */
  function Reversed<T>(s: seq<T>): (r: seq<T>)
    ensures |r| == |s|
    ensures forall i :: 0 <= i < |s| ==> r[i] == s[|s| - 1 - i]
  {
    if s == [] then [] else Reversed(s[1..]) + [s[0]]
  }

  /** Reversing twice gives back the original sequence. */
  lemma ReversedTwice<T>(s: seq<T>)
    ensures Reversed(Reversed(s)) == s
  {
    var r := Reversed(Reversed(s));
    assert forall i :: 0 <= i < |s| ==> r[i] == s[i];
  }

  /** Dropping the first element of a reversed prefix is reversing the shorter prefix. */
  lemma ReversedPrefixTail<T>(s: seq<T>, k: nat)
    requires 0 < k <= |s|
    ensures Reversed(s[..k])[0] == s[k - 1]
    ensures Reversed(s[..k])[1..] == Reversed(s[..k - 1])
  {
    var a, b := Reversed(s[..k])[1..], Reversed(s[..k - 1]);
    assert forall i :: 0 <= i < |a| ==> a[i] == b[i];
  }

  /** s with the elements at positions i and j exchanged. */
  function Swap<T>(s: seq<T>, i: nat, j: nat): (r: seq<T>)
    requires i < |s| && j < |s|
    ensures |r| == |s| && r[i] == s[j] && r[j] == s[i]
    ensures forall k :: 0 <= k < |s| && k != i && k != j ==> r[k] == s[k]
  {
    s[i := s[j]][j := s[i]]
  }

  /** s after k steps of the two-cursor swap started with the front cursor at
      f and the back cursor at b: step m (m < k) exchanges positions f + m and
      b - m. */
  function SwapSteps<T>(s: seq<T>, f: nat, b: int, k: nat): (r: seq<T>)
    requires f + k <= |s| && k <= b + 1 && b < |s|
    ensures |r| == |s|
  {
    if k == 0 then s else Swap(SwapSteps(s, f, b, k - 1), f + k - 1, b - (k - 1))
  }

  /** Started at both ends, while the cursors have not crossed the first k
      and the last k positions hold each other's old elements and the middle
      is untouched. */
  lemma {:induction false} SwapStepsAt<T>(s: seq<T>, k: nat, i: nat)
    requires k <= |s| / 2 && i < |s|
    ensures SwapSteps(s, 0, |s| - 1, k)[i] == if i < k || |s| - k <= i then s[|s| - 1 - i] else s[i]
  {
    if k > 0 {
      SwapStepsAt(s, k - 1, i);
      SwapStepsAt(s, k - 1, k - 1);
      SwapStepsAt(s, k - 1, |s| - k);
    }
  }

  /** |s| / 2 steps of the two-cursor swap started at both ends reverse s. */
  lemma SwapHalfReverses<T>(s: seq<T>)
    ensures |s| > 0 ==> SwapSteps(s, 0, |s| - 1, |s| / 2) == Reversed(s)
  {
    if |s| > 0 {
      var a, b := SwapSteps(s, 0, |s| - 1, |s| / 2), Reversed(s);
      forall i | 0 <= i < |s|
        ensures a[i] == b[i]
      {
        SwapHalfAt(s, i);
      }
    }
  }

  lemma SwapHalfAt<T>(s: seq<T>, i: nat)
    requires i < |s|
    ensures SwapSteps(s, 0, |s| - 1, |s| / 2)[i] == s[|s| - 1 - i]
  {
    var h := |s| / 2;
    SwapStepsAt(s, h, i);
    if h <= i < |s| - h {
      assert |s| == 2 * h + 1 && i == h;
    }
  }

  /** Applying f to every element, in order. */
  function MapSeq<T, V>(f: T -> V, s: seq<T>): (r: seq<V>)
    ensures |r| == |s|
    ensures forall i :: 0 <= i < |s| ==> r[i] == f(s[i])
  {
    if s == [] then [] else [f(s[0])] + MapSeq(f, s[1..])
  }

  /** The elements of s that satisfy p, in their order in s. */
  function FilterSeq<T>(p: T -> bool, s: seq<T>): (r: seq<T>)
    ensures |r| <= |s|
    ensures forall x :: x in r ==> x in s && p(x)
    ensures forall x :: x in s && p(x) ==> x in r
  {
    if s == [] then [] else (if p(s[0]) then [s[0]] else []) + FilterSeq(p, s[1..])
  }

  /** Left fold: f(...f(f(init, s[0]), s[1])..., s[|s| - 1]). */
  function FoldLeft<T, V>(f: (V, T) -> V, init: V, s: seq<T>): V
  {
    if s == [] then init else FoldLeft(f, f(init, s[0]), s[1..])
  }

  /** Folding one more element at the end applies f once more to the result. */
  lemma {:induction false} FoldLeftSnoc<T, V>(f: (V, T) -> V, init: V, s: seq<T>, x: T)
    ensures FoldLeft(f, init, s + [x]) == f(FoldLeft(f, init, s), x)
  {
    if s != [] {
      calc {
        FoldLeft(f, init, s + [x]);
        { assert (s + [x])[0] == s[0] && (s + [x])[1..] == s[1..] + [x]; }
        FoldLeft(f, f(init, s[0]), s[1..] + [x]);
        { FoldLeftSnoc(f, f(init, s[0]), s[1..], x); }
        f(FoldLeft(f, init, s), x);
      }
    }
  }

  /** Reduce: zero on the empty sequence, otherwise the left fold seeded with
      the first element. */
  function Reduced<T>(f: (T, T) -> T, zero: T, s: seq<T>): T
  {
    if s == [] then zero else FoldLeft(f, s[0], s[1..])
  }

  /** Reduce over one more element at the end applies f once more. */
  lemma ReducedSnoc<T>(f: (T, T) -> T, zero: T, s: seq<T>, x: T)
    requires s != []
    ensures Reduced(f, zero, s + [x]) == f(Reduced(f, zero, s), x)
  {
    assert (s + [x])[0] == s[0] && (s + [x])[1..] == s[1..] + [x];
    FoldLeftSnoc(f, s[0], s[1..], x);
  }

  /** Sum of the elements, starting from 0. */
  function SumSeq(s: seq<int>): int
  {
    if s == [] then 0 else s[0] + SumSeq(s[1..])
  }

  /** The sum is the left fold of + starting at 0. */
  lemma {:induction false} SumIsFold(s: seq<int>, acc: int)
    ensures acc + SumSeq(s) == FoldLeft((a: int, b: int) => a + b, acc, s)
  {
    if s != [] {
      SumIsFold(s[1..], acc + s[0]);
    }
  }

  /** Position of the first element satisfying p, or -1 if none does. */
  function FirstIndex<T>(p: T -> bool, s: seq<T>): (r: int)
    ensures -1 <= r < |s|
    ensures r == -1 <==> forall i :: 0 <= i < |s| ==> !p(s[i])
    ensures 0 <= r ==> p(s[r]) && forall i :: 0 <= i < r ==> !p(s[i])
  {
    if s == [] then -1
    else if p(s[0]) then 0
    else var k := FirstIndex(p, s[1..]); if k == -1 then -1 else k + 1
  }

  /** The first match is the position k exactly when s[k] matches and nothing
      before it does. */
  lemma FirstIndexAt<T>(p: T -> bool, s: seq<T>, k: int)
    requires 0 <= k < |s| && p(s[k])
    requires forall i :: 0 <= i < k ==> !p(s[i])
    ensures FirstIndex(p, s) == k
  {
  }

  /** Running-extremum scan: starting from cur, each element x replaces the
      current candidate exactly when replace(candidate, x) holds. */
  function Extremum<T>(replace: (T, T) -> bool, cur: T, s: seq<T>): T
  {
    if s == [] then cur else Extremum(replace, if replace(cur, s[0]) then s[0] else cur, s[1..])
  }

  ghost predicate Irreflexive<T(!new)>(r: (T, T) -> bool) {
    forall x :: !r(x, x)
  }

  ghost predicate Asymmetric<T(!new)>(r: (T, T) -> bool) {
    forall x, y :: r(x, y) ==> !r(y, x)
  }

  ghost predicate Transitive<T(!new)>(r: (T, T) -> bool) {
    forall x, y, z :: r(x, y) && r(y, z) ==> r(x, z)
  }

  /** For a strict order, the scan ends on one of the elements it saw and no
      element it saw would have replaced it. */
  lemma {:induction false} ExtremumIsBound<T(!new)>(replace: (T, T) -> bool, cur: T, s: seq<T>)
    requires Irreflexive(replace) && Transitive(replace)
    ensures var r := Extremum(replace, cur, s);
      && (r == cur || r in s)
      && (r == cur || replace(cur, r))
      && !replace(r, cur)
      && forall x :: x in s ==> !replace(r, x)
  {
    if s != [] {
      var next := if replace(cur, s[0]) then s[0] else cur;
      ExtremumIsBound(replace, next, s[1..]);
      var r := Extremum(replace, cur, s);
      assert r == Extremum(replace, next, s[1..]);
      assert forall x :: x in s ==> x == s[0] || x in s[1..];
    }
  }

  /** Element-wise equality under eq: same length and eq holds at every position. */
  ghost predicate EqualBy<T1, T2>(eq: (T1, T2) -> bool, a: seq<T1>, b: seq<T2>) {
    |a| == |b| && forall i :: 0 <= i < |a| ==> eq(a[i], b[i])
  }

  /** A prefix on which eq holds position by position grows by one when eq
      holds at the next position. */
  lemma EqualByExtend<T1, T2>(eq: (T1, T2) -> bool, a: seq<T1>, b: seq<T2>, k: nat)
    requires k < |a| && k < |b| && EqualBy(eq, a[..k], b[..k]) && eq(a[k], b[k])
    ensures EqualBy(eq, a[..k + 1], b[..k + 1])
  {
    assert a[..k + 1] == a[..k] + [a[k]] && b[..k + 1] == b[..k] + [b[k]];
  }

  /** With == as the element test, EqualBy is sequence equality. */
  lemma EqualByEq<T>(a: seq<T>, b: seq<T>)
    ensures EqualBy(Gcl.Equal, a, b) <==> a == b
  {
    if EqualBy(Gcl.Equal, a, b) {
      assert forall i :: 0 <= i < |a| ==> a[i] == b[i];
    }
  }

  /** How many elements a pairwise scan consumes from each side before it
      either finds a mismatch (counted) or exhausts one side. */
  function EqualSteps<T1, T2>(eq: (T1, T2) -> bool, a: seq<T1>, b: seq<T2>): (k: nat)
    ensures k <= |a| && k <= |b|
  {
    if a == [] || b == [] then 0
    else if !eq(a[0], b[0]) then 1
    else 1 + EqualSteps(eq, a[1..], b[1..])
  }

  /** Lexicographic three-way comparison: the first non-zero cmp result of a
      position both sequences have, else the shorter sequence is less. */
  function LexCompare<T1, T2>(cmp: (T1, T2) -> int, a: seq<T1>, b: seq<T2>): int
  {
    if a == [] then (if b == [] then 0 else -1)
    else if b == [] then 1
    else if cmp(a[0], b[0]) != 0 then cmp(a[0], b[0])
    else LexCompare(cmp, a[1..], b[1..])
  }

  /** A proper prefix compares as less, whatever the element comparison. */
  lemma {:induction false} LexComparePrefix<T>(cmp: (T, T) -> int, a: seq<T>, b: seq<T>)
    requires forall x :: cmp(x, x) == 0
    requires |a| < |b| && a == b[..|a|]
    ensures LexCompare(cmp, a, b) == -1
  {
    if a != [] {
      assert a[0] == b[0];
      LexComparePrefix(cmp, a[1..], b[1..]);
    }
  }

  /** Under the three-way integer comparator the lexicographic result is
      -1, 0 or +1, and it is 0 exactly when the sequences are equal. */
  lemma {:induction false} LexIntRange(a: seq<int>, b: seq<int>)
    ensures var r := LexCompare(Gcl.Compare, a, b); r == -1 || r == 0 || r == 1
    ensures LexCompare(Gcl.Compare, a, b) == 0 <==> a == b
  {
    if a != [] && b != [] && Gcl.Compare(a[0], b[0]) == 0 {
      LexIntRange(a[1..], b[1..]);
      assert a == [a[0]] + a[1..] && b == [b[0]] + b[1..];
    }
  }

  /** Keep the first element and then every element the eq test tells apart
      from the last element kept (Unix uniq). Defined on prefixes, in the order
      the list is scanned. */
  function CompactSeq<T>(eq: (T, T) -> bool, s: seq<T>): (r: seq<T>)
    ensures |r| <= |s|
    ensures |s| > 0 ==> |r| > 0 && r[0] == s[0]
  {
    if |s| <= 1 then s
    else
      var r := CompactSeq(eq, s[..|s| - 1]);
      if eq(s[|s| - 1], r[|r| - 1]) then r else r + [s[|s| - 1]]
  }

  /** Compacting one more element of s: it is kept exactly when the eq
      test tells it apart from the last element kept so far. */
  lemma CompactSeqStep<T>(eq: (T, T) -> bool, s: seq<T>, j: int)
    requires 1 <= j < |s|
    ensures CompactSeq(eq, s[..j + 1]) ==
      (var r := CompactSeq(eq, s[..j]); if eq(s[j], r[|r| - 1]) then r else r + [s[j]])
  {
    assert s[..j + 1][..j] == s[..j];
  }

  /** Some two neighbours of s pass the eq test. */
  ghost predicate HasAdjacentEq<T>(eq: (T, T) -> bool, s: seq<T>) {
    exists i :: 0 < i < |s| && eq(s[i], s[i - 1])
  }

  /** Compacting loses an element exactly when some two neighbours pass the eq test. */
  lemma {:induction false} CompactShrinksIff<T>(eq: (T, T) -> bool, s: seq<T>)
    ensures |CompactSeq(eq, s)| < |s| <==> HasAdjacentEq(eq, s)
  {
    if |s| > 1 {
      var p := s[..|s| - 1];
      CompactShrinksIff(eq, p);
      var r := CompactSeq(eq, p);
      if |r| == |p| {
        CompactKeepsAll(eq, p);
        assert r[|r| - 1] == s[|s| - 2];
      }
      if HasAdjacentEq(eq, s) && !HasAdjacentEq(eq, p) {
        var i :| 0 < i < |s| && eq(s[i], s[i - 1]);
        assert i == |s| - 1;
      }
      if HasAdjacentEq(eq, p) {
        var i :| 0 < i < |p| && eq(p[i], p[i - 1]);
        assert eq(s[i], s[i - 1]);
      }
    }
  }

  /** When nothing is dropped, compacting is the identity. */
  lemma {:induction false} CompactKeepsAll<T>(eq: (T, T) -> bool, s: seq<T>)
    requires |CompactSeq(eq, s)| == |s|
    ensures CompactSeq(eq, s) == s
  {
    if |s| > 1 {
      var p := s[..|s| - 1];
      var r := CompactSeq(eq, p);
      assert |r| == |p|;
      CompactKeepsAll(eq, p);
      assert s == p + [s[|s| - 1]];
    }
  }

  /** With == as the test, no two neighbours of the result are equal. */
  lemma {:induction false} CompactNoAdjacentDuplicates<T>(s: seq<T>)
    ensures !HasAdjacentEq(Gcl.Equal, CompactSeq(Gcl.Equal, s))
  {
    if |s| > 1 {
      var p := s[..|s| - 1];
      CompactNoAdjacentDuplicates(p);
      var r := CompactSeq(Gcl.Equal, p);
      var x := s[|s| - 1];
      if x != r[|r| - 1] {
        var r' := r + [x];
        forall i | 0 < i < |r'|
          ensures !Gcl.Equal(r'[i], r'[i - 1])
        {
          if i < |r| {
            assert r'[i] == r[i] && r'[i - 1] == r[i - 1];
          }
        }
      }
    }
  }

  /** Compacting only drops values, and with == as the test every value of s
      survives in the result: only repeated copies go. */
  lemma {:induction false} CompactKeepsValues<T>(eq: (T, T) -> bool, s: seq<T>)
    ensures forall x :: x in CompactSeq(eq, s) ==> x in s
    ensures eq == Gcl.Equal ==> forall x :: x in s <==> x in CompactSeq(eq, s)
  {
    if |s| > 1 {
      var p := s[..|s| - 1];
      CompactKeepsValues(eq, p);
      assert s == p + [s[|s| - 1]];
    }
  }

  /** With == as the test, compacting twice is compacting once. */
  lemma CompactIdempotent<T>(s: seq<T>)
    ensures CompactSeq(Gcl.Equal, CompactSeq(Gcl.Equal, s)) == CompactSeq(Gcl.Equal, s)
  {
    var r := CompactSeq(Gcl.Equal, s);
    CompactNoAdjacentDuplicates(s);
    CompactShrinksIff(Gcl.Equal, r);
    CompactKeepsAll(Gcl.Equal, r);
  }

  /** Adjacent sortedness under a less test: no element is less than the one before it. */
  ghost predicate SortedBy<T>(less: (T, T) -> bool, s: seq<T>) {
    forall i :: 0 < i < |s| ==> !less(s[i], s[i - 1])
  }

  /** Insert x into s in front of the first element that is not less than x. */
  function InsertSorted<T>(less: (T, T) -> bool, x: T, s: seq<T>): (r: seq<T>)
    ensures multiset(r) == multiset(s) + multiset{x}
    ensures |r| == |s| + 1
  {
    if s == [] then [x]
    else if less(s[0], x) then
      assert s == [s[0]] + s[1..];
      [s[0]] + InsertSorted(less, x, s[1..])
    else [x] + s
  }

  /** Insertion sort by a less test: the stand-in for the library sort. */
  function SortBy<T>(less: (T, T) -> bool, s: seq<T>): (r: seq<T>)
    ensures multiset(r) == multiset(s)
    ensures |r| == |s|
  {
    if s == [] then []
    else
      assert s == [s[0]] + s[1..];
      InsertSorted(less, s[0], SortBy(less, s[1..]))
  }

  lemma {:induction false} InsertSortedKeepsOrder<T(!new)>(less: (T, T) -> bool, x: T, s: seq<T>)
    requires Asymmetric(less) && SortedBy(less, s)
    ensures SortedBy(less, InsertSorted(less, x, s))
    ensures s != [] ==> InsertSorted(less, x, s)[0] == (if less(s[0], x) then s[0] else x)
  {
    if s != [] && less(s[0], x) {
      InsertSortedKeepsOrder(less, x, s[1..]);
    }
  }

  /** The sort's result is ordered and is a permutation of its input, for any
      asymmetric less test. */
  lemma {:induction false} SortByCorrect<T(!new)>(less: (T, T) -> bool, s: seq<T>)
    requires Asymmetric(less)
    ensures SortedBy(less, SortBy(less, s))
    ensures multiset(SortBy(less, s)) == multiset(s)
  {
    if s != [] {
      SortByCorrect(less, s[1..]);
      InsertSortedKeepsOrder(less, s[0], SortBy(less, s[1..]));
    }
  }

  /** Sorting a sequence that is already sorted leaves it as it is, so sorting is idempotent. */
  lemma {:induction false} SortBySorted<T>(less: (T, T) -> bool, s: seq<T>)
    requires SortedBy(less, s)
    ensures SortBy(less, s) == s
  {
    if s != [] {
      SortBySorted(less, s[1..]);
    }
  }

  /** Over the integers, adjacent order gives order between any two positions. */
  lemma {:induction false} SortedIntsGlobal(s: seq<int>, i: nat, j: nat)
    requires SortedBy(Gcl.Less, s)
    requires i <= j < |s|
    ensures s[i] <= s[j]
  {
    if i < j {
      SortedIntsGlobal(s, i, j - 1);
    }
  }

  /** Over the integers there is only one sorted arrangement of a multiset. */
  lemma {:induction false} SortedIntsUnique(a: seq<int>, b: seq<int>)
    requires SortedBy(Gcl.Less, a) && SortedBy(Gcl.Less, b)
    requires multiset(a) == multiset(b)
    ensures a == b
  {
    if a != [] {
      assert |b| == |a| by { assert |multiset(a)| == |multiset(b)|; }
      SortedIntsSameHead(a, b);
      TailMultiset(a);
      TailMultiset(b);
      SortedIntsUnique(a[1..], b[1..]);
      assert a == [a[0]] + a[1..] && b == [b[0]] + b[1..];
    }
  }

  /** Two non-empty sorted integer sequences with the same multiset start
      with the same element, their common minimum. */
  lemma SortedIntsSameHead(a: seq<int>, b: seq<int>)
    requires SortedBy(Gcl.Less, a) && SortedBy(Gcl.Less, b)
    requires multiset(a) == multiset(b) && a != [] && b != []
    ensures a[0] == b[0]
  {
    assert b[0] in multiset(a) && a[0] in multiset(b);
    var ia :| 0 <= ia < |a| && a[ia] == b[0];
    var ib :| 0 <= ib < |b| && b[ib] == a[0];
    SortedIntsGlobal(a, 0, ia);
    SortedIntsGlobal(b, 0, ib);
  }

  /** The multiset of the tail is the multiset without the head. */
  lemma TailMultiset(s: seq<int>)
    requires s != []
    ensures multiset(s[1..]) == multiset(s) - multiset{s[0]}
  {
    assert s == [s[0]] + s[1..];
  }
}
