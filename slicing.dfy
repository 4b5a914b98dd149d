/**
 * One chunk of a shuffled roster: the validity test (main.py, line 108), the
 * pairs an accepted chunk writes to the history (lines 115-117), and the
 * slicing of the roster into consecutive chunks (lines 106-107, 118).
 */
module Slicing {
  import opened Pairs
  import opened Seqs

  function Min(a: int, b: int): int
  {
    if a <= b then a else b
  }

  /** The `all(...)` test: no two positions j < k form a pair already in `used`. */
  predicate ChunkValid(group: seq<Id>, used: set<Pair>)
  {
    forall j, k :: 0 <= j < k < |group| ==> Key(group[j], group[k]) !in used
  }

  /** A chunk of length 0 or 1 has no pair to check, so it is always valid. */
  lemma ShortChunkValid(group: seq<Id>, used: set<Pair>)
    requires |group| <= 1
    ensures ChunkValid(group, used)
  {
  }

  /** In a valid chunk no two distinct members form a known pair, in either order. */
  lemma ValidChunkMembersUnpaired(group: seq<Id>, used: set<Pair>)
    requires ChunkValid(group, used)
    ensures forall x, y :: x in group && y in group && x != y ==> Key(x, y) !in used
  {
    forall x, y | x in group && y in group && x != y
      ensures Key(x, y) !in used
    {
      var a :| 0 <= a < |group| && group[a] == x;
      var b :| 0 <= b < |group| && group[b] == y;
      if b < a {
        KeySymmetric(x, y);
      }
    }
  }

  /**
   * On a duplicate-free chunk the positional test is the membership test:
   * the chunk is valid exactly when no two of its distinct members are a known pair.
   */
  lemma ValidIffMembersUnpaired(group: seq<Id>, used: set<Pair>)
    requires Distinct(group)
    ensures ChunkValid(group, used) <==>
            forall x, y :: x in group && y in group && x != y ==> Key(x, y) !in used
  {
    if ChunkValid(group, used) {
      ValidChunkMembersUnpaired(group, used);
    }
  }

  /** The records `(x, rest[0]), (x, rest[1]), ...`, in order. */
  function PairsWith(x: Id, rest: seq<Id>): seq<Pair>
  {
    if |rest| == 0 then [] else PairsWith(x, rest[..|rest| - 1]) + [(x, rest[|rest| - 1])]
  }

  /** The m-th record of a round pairs its fixed first member with the m-th later member. */
  lemma {:induction false} PairsWithAt(x: Id, rest: seq<Id>)
    ensures |PairsWith(x, rest)| == |rest|
    ensures forall m :: 0 <= m < |rest| ==> PairsWith(x, rest)[m] == (x, rest[m])
  {
    if |rest| > 0 {
      PairsWithAt(x, rest[..|rest| - 1]);
    }
  }

  /** The records written by the first `j` rounds of the outer loop `for j in range(len(group))`. */
  function Rows(group: seq<Id>, j: nat): seq<Pair>
    requires j <= |group|
  {
    if j == 0 then [] else Rows(group, j - 1) + PairsWith(group[j - 1], group[j..])
  }

  /** Every record `(group[j], group[k])`, j < k, in j-then-k order, that an accepted chunk writes. */
  function ChunkPairs(group: seq<Id>): seq<Pair>
  {
    Rows(group, |group|)
  }

  lemma {:induction false} RowsLength(group: seq<Id>, j: nat)
    requires j <= |group|
    ensures 2 * |Rows(group, j)| == j * (2 * |group| - 1 - j)
  {
    if j > 0 {
      RowsLength(group, j - 1);
      PairsWithAt(group[j - 1], group[j..]);
      var n := |group|;
      assert j * (2 * n - 1 - j) == (j - 1) * (2 * n - 1 - (j - 1)) + 2 * (n - j);
    }
  }

  /** A chunk of n members writes exactly n(n-1)/2 records. */
  lemma ChunkPairsCount(group: seq<Id>)
    ensures |ChunkPairs(group)| == |group| * (|group| - 1) / 2
  {
    RowsLength(group, |group|);
  }

  /** The record `p` is `(group[a], group[b])` for positions a < b. */
  predicate RecordAt(group: seq<Id>, p: Pair, a: int, b: int)
  {
    0 <= a < b < |group| && p.0 == group[a] && p.1 == group[b]
  }

  /** The records of the first `j` rounds are exactly the position pairs (a, b) with a < j and a < b. */
  lemma {:induction false} RowsMembership(group: seq<Id>, j: nat, p: Pair)
    requires j <= |group|
    ensures p in Rows(group, j) <==> exists a, b :: a < j && RecordAt(group, p, a, b)
  {
    if j > 0 {
      RowsMembership(group, j - 1, p);
      var row := PairsWith(group[j - 1], group[j..]);
      PairsWithAt(group[j - 1], group[j..]);
      assert Rows(group, j) == Rows(group, j - 1) + row;
      if p in row {
        var m :| 0 <= m < |row| && row[m] == p;
        assert RecordAt(group, p, j - 1, j + m);
      }
      if exists a, b :: a < j && RecordAt(group, p, a, b) {
        var a, b :| a < j && RecordAt(group, p, a, b);
        if a == j - 1 {
          assert row[b - j] == p;
        } else {
          assert exists a, b :: a < j - 1 && RecordAt(group, p, a, b);
        }
      }
    }
  }

  /** A record of a chunk names two of the chunk's members, from two positions j < k. */
  lemma ChunkPairsMembership(group: seq<Id>, p: Pair)
    ensures p in ChunkPairs(group) <==> exists a, b :: RecordAt(group, p, a, b)
  {
    RowsMembership(group, |group|, p);
  }

  /** Validity, read back through the history: a chunk is valid exactly when none of its own records is already known. */
  lemma ValidIffPairsUnknown(group: seq<Id>, used: set<Pair>)
    ensures ChunkValid(group, used) <==> Snapshot(ChunkPairs(group)) !! used
  {
    if ChunkValid(group, used) {
      forall p | p in ChunkPairs(group) ensures Key(p.0, p.1) !in used {
        ChunkPairsMembership(group, p);
      }
    } else {
      var j, k :| 0 <= j < k < |group| && Key(group[j], group[k]) in used;
      ChunkPairsMembership(group, (group[j], group[k]));
      assert RecordAt(group, (group[j], group[k]), j, k);
      assert Key(group[j], group[k]) in Snapshot(ChunkPairs(group));
    }
  }

  /**
   * The slices `s[i:i+size]`, `s[i+size:i+2*size]`, ... taken by the loop
   * from position `i` on, until the position passes the end of `s`.
   */
  function ChunksFrom(s: seq<Id>, i: nat, size: int): seq<seq<Id>>
    requires size >= 1
    decreases |s| - i
  {
    if i >= |s| then [] else [s[i..Min(i + size, |s|)]] + ChunksFrom(s, i + size, size)
  }

  /** The chunks a whole attempt slices the permutation `s` into. */
  function Chunks(s: seq<Id>, size: int): seq<seq<Id>>
    requires size >= 1
  {
    ChunksFrom(s, 0, size)
  }

  /** The chunks cover the rest of the permutation in order, with no overlap and no gap. */
  lemma {:induction false} ChunksFromCover(s: seq<Id>, i: nat, size: int)
    requires size >= 1
    ensures Flatten(ChunksFrom(s, i, size)) == if i < |s| then s[i..] else []
    decreases |s| - i
  {
    if i < |s| {
      ChunksFromCover(s, i + size, size);
      var cs := ChunksFrom(s, i, size);
      assert cs[1..] == ChunksFrom(s, i + size, size);
      if i + size < |s| {
        assert s[i..] == s[i..i + size] + s[i + size..];
      }
    }
  }

  /** Concatenating the chunks gives back the permutation. */
  lemma ChunksCover(s: seq<Id>, size: int)
    requires size >= 1
    ensures Flatten(Chunks(s, size)) == s
  {
    ChunksFromCover(s, 0, size);
  }

  /** Every chunk but the last holds exactly `size` ids; the last holds between 1 and `size`. */
  predicate WellSized(cs: seq<seq<Id>>, size: int)
  {
    forall m :: 0 <= m < |cs| ==> 1 <= |cs[m]| <= size && (m < |cs| - 1 ==> |cs[m]| == size)
  }

  lemma {:induction false} ChunksFromLengths(s: seq<Id>, i: nat, size: int)
    requires size >= 1
    ensures WellSized(ChunksFrom(s, i, size), size)
    decreases |s| - i
  {
    if i < |s| {
      ChunksFromLengths(s, i + size, size);
      var cs := ChunksFrom(s, i, size);
      assert cs[1..] == ChunksFrom(s, i + size, size);
      forall m | 0 <= m < |cs|
        ensures 1 <= |cs[m]| <= size && (m < |cs| - 1 ==> |cs[m]| == size)
      {
        if m > 0 {
          assert cs[m] == cs[1..][m - 1];
        }
      }
    }
  }

  lemma ChunkLengths(s: seq<Id>, size: int)
    requires size >= 1
    ensures WellSized(Chunks(s, size), size)
  {
    ChunksFromLengths(s, 0, size);
  }

  /** The records written by a run of accepted chunks, chunk after chunk. */
  function AllPairs(gs: seq<seq<Id>>): seq<Pair>
  {
    if |gs| == 0 then [] else ChunkPairs(gs[0]) + AllPairs(gs[1..])
  }

  lemma {:induction false} AllPairsAppend(gs: seq<seq<Id>>, g: seq<Id>)
    ensures AllPairs(gs + [g]) == AllPairs(gs) + ChunkPairs(g)
  {
    if |gs| == 0 {
      assert gs + [g] == [g];
      assert [g][1..] == [];
    } else {
      assert (gs + [g])[1..] == gs[1..] + [g];
      AllPairsAppend(gs[1..], g);
    }
  }

  /** The records of each chunk of a run are among the records of the run. */
  lemma {:induction false} AllPairsIncludes(gs: seq<seq<Id>>, m: nat, p: Pair)
    requires m < |gs| && p in ChunkPairs(gs[m])
    ensures p in AllPairs(gs)
  {
    if m > 0 {
      AllPairsIncludes(gs[1..], m - 1, p);
    }
  }

  /** A record written for a run of chunks names two ids of those chunks. */
  lemma {:induction false} AllPairsStayInside(gs: seq<seq<Id>>, p: Pair)
    requires p in AllPairs(gs)
    ensures p.0 in Flatten(gs) && p.1 in Flatten(gs)
  {
    if p in ChunkPairs(gs[0]) {
      ChunkPairsMembership(gs[0], p);
      var a, b :| RecordAt(gs[0], p, a, b);
      InFlatten(gs, p.0);
      InFlatten(gs, p.1);
    } else {
      AllPairsStayInside(gs[1..], p);
    }
  }

  /**
   * Checking a chunk against the snapshot alone is enough: the pairs written by
   * earlier chunks of the same attempt never involve the chunk's members, so
   * adding them to `used` would not change the verdict.
   */
  lemma EarlierChunksNeverConflict(earlier: seq<seq<Id>>, group: seq<Id>, used: set<Pair>)
    requires forall x :: x in group ==> x !in Flatten(earlier)
    ensures ChunkValid(group, used + Snapshot(AllPairs(earlier))) <==> ChunkValid(group, used)
  {
    if ChunkValid(group, used) {
      forall j, k | 0 <= j < k < |group|
        ensures Key(group[j], group[k]) !in Snapshot(AllPairs(earlier))
      {
        if Key(group[j], group[k]) in Snapshot(AllPairs(earlier)) {
          var p :| p in AllPairs(earlier) && Key(p.0, p.1) == Key(group[j], group[k]);
          AllPairsStayInside(earlier, p);
          KeyIdentifiesPair(p.0, p.1, group[j], group[k]);
          assert false;
        }
      }
    }
  }
}
