/**
 * Choice of the effective group size: the size most users asked for when
 * they registered, falling back to the requested size only when nobody is
 * registered.
 */
module GroupSize {
  /** How many users asked for size `x`. */
  function Count(sizes: seq<int>, x: int): nat
  {
    multiset(sizes)[x]
  }

  /**
   * The first candidate whose count no other candidate exceeds: a later
   * candidate replaces the current best only when its count is strictly
   * greater.
   */
  function MostFrequent(sizes: seq<int>, cands: seq<int>): (m: int)
    requires |cands| > 0
    ensures m in cands
    ensures forall c :: c in cands ==> Count(sizes, c) <= Count(sizes, m)
  {
    if |cands| == 1 then cands[0]
    else
      var rest := MostFrequent(sizes, cands[1..]);
      if Count(sizes, rest) > Count(sizes, cands[0]) then rest else cands[0]
  }

  /**
   * The size the grouping uses: a most frequent preference when there are
   * preferences, otherwise the requested size.
   */
  function ChosenSize(sizes: seq<int>, requested: int): (size: int)
    ensures |sizes| > 0 ==> size in sizes && forall x :: Count(sizes, x) <= Count(sizes, size)
    ensures |sizes| == 0 ==> size == requested
  {
    if |sizes| > 0 then MostFrequent(sizes, sizes) else requested
  }

  /** A preference held by strictly more users than any other is the one chosen. */
  lemma StrictModeIsChosen(sizes: seq<int>, requested: int, x: int)
    requires forall y :: y != x ==> Count(sizes, y) < Count(sizes, x)
    ensures ChosenSize(sizes, requested) == x
  {
    assert Count(sizes, x + 1) < Count(sizes, x);
    assert x in multiset(sizes);
  }

  /** Once anyone is registered the requested size makes no difference. */
  lemma RequestedSizeIgnored(sizes: seq<int>, r1: int, r2: int)
    requires |sizes| > 0
    ensures ChosenSize(sizes, r1) == ChosenSize(sizes, r2)
  {
  }

  /** Two users asking for 2 outvote one asking for 3; the request of 5 is not used. */
  lemma ChosenSizeExample()
    ensures ChosenSize([3, 2, 2], 5) == 2
    ensures ChosenSize([], 5) == 5
  {
  }
}
