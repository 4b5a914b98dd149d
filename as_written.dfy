/**
 * The control state of the grouping loop as written: the permutation, the
 * index `i`, the kept id groups and the reshuffle count of an unbounded loop
 * over a Python slice, restarting on a fresh shuffle whenever a chunk is
 * refused. The pair records and the member labels are left aside. It is
 * used only to exhibit inputs on which the loop never exits; the rest of
 * the model uses the bounded loop of `Engine`.
 */
module AsWritten {
  import opened Seqs
  import opened Pairs
  import opened Slicing

  /** Python's normalisation of a slice bound against a sequence of length `n`. */
  function SliceBound(k: int, n: nat): (b: nat)
    ensures b <= n
    ensures 0 <= k <= n ==> b == k
    ensures k < 0 && k + n >= 0 ==> b == k + n
    ensures k > n ==> b == n
    ensures k + n < 0 ==> b == 0
  {
    if k < 0 then (if k + n < 0 then 0 else k + n)
    else if k > n then n
    else k
  }

  /** Python's `s[lo:hi]`: negative bounds count from the end, and crossed bounds give the empty slice. */
  function PySlice<T>(s: seq<T>, lo: int, hi: int): seq<T>
  {
    var a := SliceBound(lo, |s|);
    var b := SliceBound(hi, |s|);
    if a < b then s[a..b] else []
  }

  /** The variables of the loop: the current permutation, `i`, `groups`, and how many reshuffles happened. */
  datatype LoopState = LoopState(perm: seq<Id>, i: int, groups: seq<seq<Id>>, reshuffles: nat)

  /** The loop guard `i < len(regnos)`. */
  predicate Running(st: LoopState)
  {
    st.i < |st.perm|
  }

  /**
   * One pass of the loop body: keep the slice and advance by `size`, or
   * reshuffle and restart. `reshuffle(n)` is the permutation the n-th
   * reshuffle produces.
   */
  function Step(st: LoopState, size: int, used: set<Pair>, reshuffle: nat -> seq<Id>): LoopState
  {
    var group := PySlice(st.perm, st.i, st.i + size);
    if ChunkValid(group, used) then st.(groups := st.groups + [group], i := st.i + size)
    else LoopState(reshuffle(st.reshuffles), 0, [], st.reshuffles + 1)
  }

  /** The state after at most `k` passes, stopping early once the guard fails. */
  function Run(st: LoopState, size: int, used: set<Pair>, reshuffle: nat -> seq<Id>, k: nat): LoopState
    decreases k
  {
    if k == 0 || !Running(st) then st
    else Run(Step(st, size, used, reshuffle), size, used, reshuffle, k - 1)
  }

  /**
   * With a group size of zero or less the index never becomes positive, so
   * with anyone registered the guard holds after any number of passes.
   */
  lemma {:induction false} NonPositiveSizeNeverExits(st: LoopState, size: int, used: set<Pair>,
                                                      reshuffle: nat -> seq<Id>, k: nat)
    requires size <= 0 && st.i <= 0 && |st.perm| > 0
    requires forall n :: |reshuffle(n)| > 0
    ensures Running(Run(st, size, used, reshuffle, k)) && Run(st, size, used, reshuffle, k).i <= 0
    decreases k
  {
    if k > 0 {
      NonPositiveSizeNeverExits(Step(st, size, used, reshuffle), size, used, reshuffle, k - 1);
    }
  }

  /** A single user preferring size 0: three passes append three empty groups and `i` stays 0. */
  lemma ZeroSizeExample()
    ensures Run(LoopState(["A"], 0, [], 0), 0, {}, n => ["A"], 3) == LoopState(["A"], 0, [[], [], []], 0)
  {
  }

  /**
   * When the history pairs every two registered ids, the first slice of any
   * permutation holds two of them and is refused.
   */
  lemma FirstSliceRefused(regnos: seq<Id>, perm: seq<Id>, size: int, used: set<Pair>)
    requires size >= 2 && |regnos| >= 2 && Distinct(regnos)
    requires forall a, b :: a in regnos && b in regnos && a != b ==> Key(a, b) in used
    requires multiset(perm) == multiset(regnos)
    ensures !ChunkValid(PySlice(perm, 0, 0 + size), used)
  {
    DistinctPermutation(perm, regnos);
    assert |perm| == |regnos| by {
      assert |multiset(perm)| == |multiset(regnos)|;
    }
    assert perm[0] in multiset(regnos) && perm[1] in multiset(regnos);
    var group := PySlice(perm, 0, 0 + size);
    assert group[0] == perm[0] && group[1] == perm[1];
    assert Key(group[0], group[1]) in used;
  }

  /**
   * When the history pairs every two registered ids and groups hold two or
   * more, every pass refuses the first slice and restarts: the guard holds
   * after any number of passes and no group is ever kept.
   */
  lemma {:induction false} FullyPairedNeverExits(regnos: seq<Id>, st: LoopState, size: int, used: set<Pair>,
                                                  reshuffle: nat -> seq<Id>, k: nat)
    requires size >= 2 && |regnos| >= 2 && Distinct(regnos)
    requires forall a, b :: a in regnos && b in regnos && a != b ==> Key(a, b) in used
    requires st.i == 0 && st.groups == [] && multiset(st.perm) == multiset(regnos)
    requires forall n :: multiset(reshuffle(n)) == multiset(regnos)
    ensures var e := Run(st, size, used, reshuffle, k);
            Running(e) && e.i == 0 && e.groups == []
    decreases k
  {
    assert |st.perm| == |regnos| by {
      assert |multiset(st.perm)| == |multiset(regnos)|;
    }
    if k > 0 {
      FirstSliceRefused(regnos, st.perm, size, used);
      FullyPairedNeverExits(regnos, Step(st, size, used, reshuffle), size, used, reshuffle, k - 1);
    }
  }
}
