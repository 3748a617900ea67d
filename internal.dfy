/** The two-cursor in-place swap that reverses a slice. */
module Internal {
  import opened Seqs
  import opened SliceIters

  /** How many swaps the loop performs for a given length: the front index
      starts at 0, the back index at length - 1, and they meet in the middle. */
  function Steps(length: int): nat
  {
    if length < 2 then 0 else length / 2
  }

  /** Advance both cursors Steps(length) times, exchanging the two referenced
      cells at each step. Both cursors run over the same array; each must
      still have a next element at every step, or the source aborts. */
  method Reverse<T>(fIt: FrwIterMut<T>, rIt: RevIterMut<T>, length: int)
    requires fIt.slice == rIt.slice
    requires fIt.Valid() && rIt.Valid()
    requires Steps(length) <= fIt.Remaining() && Steps(length) <= rIt.Remaining()
    modifies fIt, rIt, fIt.slice
    ensures fIt.index == old(fIt.index) + Steps(length)
    ensures rIt.index == old(rIt.index) - Steps(length)
    ensures fIt.slice[..] == SwapSteps(old(fIt.slice[..]), old(fIt.index) + 1, old(rIt.index) - 1, Steps(length))
  {
    ghost var s := fIt.slice[..];
    ghost var f0, b0 := fIt.index + 1, rIt.index - 1;
    ghost var j: nat := 0;
    var fIdx, rIdx := 0, length - 1;
    while fIdx < rIdx
      invariant fIdx == j && rIdx == length - 1 - j
      invariant j <= Steps(length)
      invariant fIt.index == f0 - 1 + j && rIt.index == b0 + 1 - j
      invariant fIt.slice[..] == SwapSteps(s, f0, b0, j)
      decreases rIdx - fIdx
    {
      var fVal := fIt.Next();
      var rVal := rIt.Next();
      var tmp := Load(fVal);
      Store(fVal, Load(rVal));
      Store(rVal, tmp);
      fIdx := fIdx + 1;
      rIdx := rIdx - 1;
      j := j + 1;
    }
  }
}
