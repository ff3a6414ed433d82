/** Sets of consecutive numbers and their sizes. */
module Intervals {
  function Interval(low: nat, high: nat): (numbers: set<nat>)
    requires low <= high
    ensures forall n :: n in numbers <==> low <= n < high
    ensures |numbers| == high - low
    decreases high - low
  {
    if low == high then {} else Interval(low, high - 1) + {high - 1}
  }

  lemma SubsetSize<T>(small: set<T>, large: set<T>)
    requires small <= large
    ensures |small| <= |large|
  {
    if small != {} {
      var x :| x in small;
      SubsetSize(small - {x}, large - {x});
    }
  }
}
