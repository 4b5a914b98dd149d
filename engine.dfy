/**
 * The shuffle-slice-retry loop of `make_groups` (main.py, lines 98-122).
 *
 * `random.shuffle` is replaced by a supplied sequence `shuffles` of
 * permutations of the roster: `shuffles[0]` is the shuffle of line 99 and
 * `shuffles[t]` the t-th reshuffle of line 120. Each permutation is one
 * attempt, and running out of them ends the loop with `Unsatisfied`.
 */
module Engine {
  import opened Pairs
  import opened Seqs
  import opened Slicing

  /** The accepted chunks and the index of the attempt that produced them, or an exhausted budget. */
  datatype Formation = Formed(groups: seq<seq<Id>>, attempt: nat) | Unsatisfied

  predicate AllValid(gs: seq<seq<Id>>, used: set<Pair>)
  {
    forall m :: 0 <= m < |gs| ==> ChunkValid(gs[m], used)
  }

  /** An attempt succeeds when every chunk of its permutation is valid. */
  predicate Accepts(perm: seq<Id>, size: int, used: set<Pair>)
    requires size >= 1
  {
    AllValid(Chunks(perm, size), used)
  }

  /** The chunks an attempt accepts before it meets its first invalid chunk: the longest valid prefix. */
  function LeadingValid(gs: seq<seq<Id>>, used: set<Pair>): (lead: seq<seq<Id>>)
    ensures lead <= gs
    ensures AllValid(lead, used)
    ensures |lead| < |gs| ==> !ChunkValid(gs[|lead|], used)
  {
    if |gs| == 0 then []
    else if ChunkValid(gs[0], used) then [gs[0]] + LeadingValid(gs[1..], used)
    else []
  }

  /** The longest valid prefix is the only valid prefix that is followed by an invalid chunk or by nothing. */
  lemma LeadingValidUnique(gs: seq<seq<Id>>, pre: seq<seq<Id>>, used: set<Pair>)
    requires pre <= gs && AllValid(pre, used)
    requires |pre| < |gs| ==> !ChunkValid(gs[|pre|], used)
    ensures LeadingValid(gs, used) == pre
  {
  }

  /** What one attempt appends to the history: the records of the chunks it accepted before stopping. */
  function AttemptLog(perm: seq<Id>, size: int, used: set<Pair>): seq<Pair>
    requires size >= 1
  {
    AllPairs(LeadingValid(Chunks(perm, size), used))
  }

  /** What the first `t` attempts append to the history, attempt after attempt. */
  function LogBefore(shuffles: seq<seq<Id>>, size: int, used: set<Pair>, t: nat): seq<Pair>
    requires size >= 1 && t <= |shuffles|
  {
    if t == 0 then [] else LogBefore(shuffles, size, used, t - 1) + AttemptLog(shuffles[t - 1], size, used)
  }

  /** The result of the attempts from `t` on: the chunks of the first accepting permutation. */
  function Outcome(shuffles: seq<seq<Id>>, size: int, used: set<Pair>, t: nat): (o: Formation)
    requires size >= 1 && t <= |shuffles|
    ensures o.Formed? ==> t <= o.attempt < |shuffles|
    decreases |shuffles| - t
  {
    if t == |shuffles| then Unsatisfied
    else if Accepts(shuffles[t], size, used) then Formed(Chunks(shuffles[t], size), t)
    else Outcome(shuffles, size, used, t + 1)
  }

  /**
   * The outcome is the first accepting attempt: every earlier attempt was
   * rejected, and the groups are the chunks of that attempt's permutation.
   * `Unsatisfied` means that every attempt was rejected.
   */
  lemma {:induction false} OutcomeIsFirstAccepted(shuffles: seq<seq<Id>>, size: int, used: set<Pair>, t: nat)
    requires size >= 1 && t <= |shuffles|
    ensures Outcome(shuffles, size, used, t).Formed? ==>
              var a := Outcome(shuffles, size, used, t).attempt;
              t <= a < |shuffles| && Accepts(shuffles[a], size, used) &&
              Outcome(shuffles, size, used, t).groups == Chunks(shuffles[a], size) &&
              forall b :: t <= b < a ==> !Accepts(shuffles[b], size, used)
    ensures Outcome(shuffles, size, used, t).Unsatisfied? <==>
              forall b :: t <= b < |shuffles| ==> !Accepts(shuffles[b], size, used)
    decreases |shuffles| - t
  {
    if t < |shuffles| && !Accepts(shuffles[t], size, used) {
      OutcomeIsFirstAccepted(shuffles, size, used, t + 1);
    }
  }

  /** The nested loops of lines 115-117: append the chunk's records, j before k. */
  method AppendChunkPairs(log: seq<Pair>, group: seq<Id>) returns (log': seq<Pair>)
    ensures log' == log + ChunkPairs(group)
  {
    log' := log;
    var j := 0;
    while j < |group|
      invariant 0 <= j <= |group|
      invariant log' == log + Rows(group, j)
    {
      var k := j + 1;
      while k < |group|
        invariant j + 1 <= k <= |group|
        invariant log' == log + Rows(group, j) + PairsWith(group[j], group[j + 1..k])
      {
        assert group[j + 1..k + 1][..k - j - 1] == group[j + 1..k];
        log' := log' + [(group[j], group[k])];
        k := k + 1;
      }
      assert group[j + 1..k] == group[j + 1..];
      j := j + 1;
    }
  }

  /** Appending an accepted chunk's records extends the records of the accepted run by that chunk. */
  lemma RecordStep(before: seq<Pair>, groups: seq<seq<Id>>, group: seq<Id>)
    ensures before + AllPairs(groups) + ChunkPairs(group) == before + AllPairs(groups + [group])
  {
    AllPairsAppend(groups, group);
  }

  /** Accepting the chunk at position `i` moves it from the remaining chunks to the accepted ones. */
  lemma AcceptStep(perm: seq<Id>, size: int, groups: seq<seq<Id>>, i: nat)
    requires size >= 1 && i < |perm|
    requires groups + ChunksFrom(perm, i, size) == Chunks(perm, size)
    ensures groups + [perm[i..Min(i + size, |perm|)]] + ChunksFrom(perm, i + size, size) == Chunks(perm, size)
  {
  }

  /**
   * One pass of the loop of lines 106-122 over the permutation `perm`: slice
   * it from the front, record the pairs of each valid chunk, and stop either
   * at the first invalid chunk (the `else` branch, which discards the
   * groups) or past the end (the loop exits with every chunk accepted).
   */
  method RunAttempt(perm: seq<Id>, size: int, used: set<Pair>, log: seq<Pair>)
    returns (accepted: bool, groups: seq<seq<Id>>, log': seq<Pair>)
    requires size >= 1
    ensures accepted <==> Accepts(perm, size, used)
    ensures accepted ==> groups == Chunks(perm, size)
    ensures log' == log + AttemptLog(perm, size, used)
  {
    log' := log;
    groups := [];
    var i := 0;
    while i < |perm|
      invariant 0 <= i
      invariant groups + ChunksFrom(perm, i, size) == Chunks(perm, size)
      invariant AllValid(groups, used)
      invariant log' == log + AllPairs(groups)
      decreases |perm| - i
    {
      var group := perm[i..Min(i + size, |perm|)];
      AcceptStep(perm, size, groups, i);
      if ChunkValid(group, used) {
        log' := AppendChunkPairs(log', group);
        RecordStep(log, groups, group);
        groups := groups + [group];
        i := i + size;
      } else {
        assert Chunks(perm, size)[|groups|] == group;
        LeadingValidUnique(Chunks(perm, size), groups, used);
        return false, [], log';
      }
    }
    assert groups == Chunks(perm, size);
    LeadingValidUnique(Chunks(perm, size), groups, used);
    accepted := true;
  }

  /**
   * The loop of lines 104-122 over the supplied permutations: attempt after
   * attempt until one is accepted or the permutations run out. It returns the
   * accepted groups (or `Unsatisfied`) and the records it appended to the
   * history on the way, those of the abandoned attempts included.
   */
  method FormGroups(size: int, used: set<Pair>, shuffles: seq<seq<Id>>)
    returns (r: Formation, added: seq<Pair>)
    requires size >= 1
    ensures r == Outcome(shuffles, size, used, 0)
    ensures added == LogBefore(shuffles, size, used, if r.Formed? then r.attempt + 1 else |shuffles|)
    ensures r.Formed? ==> AllValid(r.groups, used)
  {
    added := [];
    var attempt := 0;
    while attempt < |shuffles|
      invariant attempt <= |shuffles|
      invariant Outcome(shuffles, size, used, 0) == Outcome(shuffles, size, used, attempt)
      invariant added == LogBefore(shuffles, size, used, attempt)
    {
      var accepted, groups;
      accepted, groups, added := RunAttempt(shuffles[attempt], size, used, added);
      if accepted {
        return Formed(groups, attempt), added;
      }
      attempt := attempt + 1;
    }
    r := Unsatisfied;
  }

  /**
   * On acceptance the groups partition the roster: every registered id is in
   * exactly one group, every group but the last has `size` members and the
   * last between 1 and `size`, and no group holds two ids that the history
   * snapshot already pairs.
   */
  lemma FormedGroupsPartitionRoster(regnos: seq<Id>, size: int, used: set<Pair>, shuffles: seq<seq<Id>>)
    requires size >= 1 && Distinct(regnos)
    requires forall t :: 0 <= t < |shuffles| ==> multiset(shuffles[t]) == multiset(regnos)
    requires Outcome(shuffles, size, used, 0).Formed?
    ensures var gs := Outcome(shuffles, size, used, 0).groups;
            (forall x :: multiset(Flatten(gs))[x] == if x in regnos then 1 else 0) &&
            WellSized(gs, size) &&
            forall m, x, y :: 0 <= m < |gs| && x in gs[m] && y in gs[m] && x != y ==> Key(x, y) !in used
  {
    OutcomeIsFirstAccepted(shuffles, size, used, 0);
    var o := Outcome(shuffles, size, used, 0);
    var gs := o.groups;
    ChunksCover(shuffles[o.attempt], size);
    ChunkLengths(shuffles[o.attempt], size);
    DistinctIffOnce(regnos);
    forall m | 0 <= m < |gs|
      ensures forall x, y :: x in gs[m] && y in gs[m] && x != y ==> Key(x, y) !in used
    {
      ValidChunkMembersUnpaired(gs[m], used);
    }
  }

  /**
   * Once a grouping is accepted, the history it leaves behind pairs every two
   * members of every group, so a later round reading that history will not
   * put them together again.
   */
  lemma FormedPairsRecorded(history: seq<Pair>, size: int, used: set<Pair>, shuffles: seq<seq<Id>>)
    requires size >= 1
    requires Outcome(shuffles, size, used, 0).Formed?
    ensures var o := Outcome(shuffles, size, used, 0);
            o.attempt < |shuffles| &&
            forall m, x, y :: 0 <= m < |o.groups| && x in o.groups[m] && y in o.groups[m] && x != y ==>
              Key(x, y) in Snapshot(history + LogBefore(shuffles, size, used, o.attempt + 1))
  {
    OutcomeIsFirstAccepted(shuffles, size, used, 0);
    var o := Outcome(shuffles, size, used, 0);
    var gs := o.groups;
    var log := history + LogBefore(shuffles, size, used, o.attempt + 1);
    LeadingValidUnique(gs, gs, used);
    assert LogBefore(shuffles, size, used, o.attempt + 1)
        == LogBefore(shuffles, size, used, o.attempt) + AllPairs(gs);
    forall m, x, y | 0 <= m < |gs| && x in gs[m] && y in gs[m] && x != y
      ensures Key(x, y) in Snapshot(log)
    {
      var g := gs[m];
      var a :| 0 <= a < |g| && g[a] == x;
      var b :| 0 <= b < |g| && g[b] == y;
      var p := if a < b then (x, y) else (y, x);
      assert RecordAt(g, p, if a < b then a else b, if a < b then b else a);
      ChunkPairsMembership(g, p);
      AllPairsIncludes(gs, m, p);
      assert p in log;
      KeySymmetric(x, y);
    }
  }

  /**
   * When the history already pairs every two registered ids and groups hold
   * two or more, no permutation is accepted, so the attempts run out: the
   * loop as written would reshuffle forever.
   */
  lemma FullyPairedRosterUnsatisfiable(regnos: seq<Id>, size: int, used: set<Pair>, shuffles: seq<seq<Id>>)
    requires size >= 2 && |regnos| >= 2 && Distinct(regnos)
    requires forall t :: 0 <= t < |shuffles| ==> multiset(shuffles[t]) == multiset(regnos)
    requires forall a, b :: a in regnos && b in regnos && a != b ==> Key(a, b) in used
    ensures Outcome(shuffles, size, used, 0) == Unsatisfied
  {
    forall t | 0 <= t < |shuffles|
      ensures !Accepts(shuffles[t], size, used)
    {
      var perm := shuffles[t];
      DistinctPermutation(perm, regnos);
      assert |perm| == |regnos| by {
        assert |multiset(perm)| == |multiset(regnos)|;
      }
      assert perm[0] in multiset(regnos) && perm[1] in multiset(regnos);
      var first := perm[0..Min(size, |perm|)];
      assert Chunks(perm, size)[0] == first;
      assert first[0] == perm[0] && first[1] == perm[1];
      assert Key(first[0], first[1]) in used;
    }
    OutcomeIsFirstAccepted(shuffles, size, used, 0);
  }

  /** With groups of one every chunk is trivially valid, so the first permutation is accepted. */
  lemma SizeOneAlwaysFormed(used: set<Pair>, shuffles: seq<seq<Id>>)
    requires |shuffles| > 0
    ensures Outcome(shuffles, 1, used, 0) == Formed(Chunks(shuffles[0], 1), 0)
  {
    ChunkLengths(shuffles[0], 1);
  }

  /** A lone participant forms a group of one, which is accepted, whatever the size. */
  lemma SingleParticipantFormed(size: int, used: set<Pair>, shuffles: seq<seq<Id>>)
    requires size >= 1 && |shuffles| > 0 && |shuffles[0]| == 1
    ensures Outcome(shuffles, size, used, 0) == Formed([shuffles[0]], 0)
  {
    var perm := shuffles[0];
    assert ChunksFrom(perm, 0 + size, size) == [];
    assert perm[0..Min(size, 1)] == perm;
    assert Chunks(perm, size) == [perm];
  }

  /** The log of the first `c` attempts is a prefix of the log of the first `t`. */
  lemma {:induction false} LogBeforePrefix(shuffles: seq<seq<Id>>, size: int, used: set<Pair>, c: nat, t: nat)
    requires size >= 1 && c <= t <= |shuffles|
    ensures c < t ==> LogBefore(shuffles, size, used, c) + AttemptLog(shuffles[c], size, used)
                      <= LogBefore(shuffles, size, used, t)
    ensures LogBefore(shuffles, size, used, c) <= LogBefore(shuffles, size, used, t)
    decreases t - c
  {
    if c < t {
      LogBeforePrefix(shuffles, size, used, c, t - 1);
    }
  }

  /** Every attempt before the accepted one was refused. */
  lemma EarlierAttemptRefused(shuffles: seq<seq<Id>>, size: int, used: set<Pair>, b: nat)
    requires size >= 1
    requires Outcome(shuffles, size, used, 0).Formed? && b < Outcome(shuffles, size, used, 0).attempt
    ensures !Accepts(shuffles[b], size, used)
  {
    OutcomeIsFirstAccepted(shuffles, size, used, 0);
  }

  /**
   * Restarting does not erase the history: every attempt refused before the
   * accepted one leaves its records, as one contiguous block in attempt
   * order, in the log the accepted round returns.
   */
  lemma RefusedAttemptsStayLogged(shuffles: seq<seq<Id>>, size: int, used: set<Pair>, b: nat)
    requires size >= 1
    requires Outcome(shuffles, size, used, 0).Formed? && b < Outcome(shuffles, size, used, 0).attempt
    ensures !Accepts(shuffles[b], size, used)
    ensures LogBefore(shuffles, size, used, b) + AttemptLog(shuffles[b], size, used)
            <= LogBefore(shuffles, size, used, Outcome(shuffles, size, used, 0).attempt + 1)
  {
    EarlierAttemptRefused(shuffles, size, used, b);
    LogBeforePrefix(shuffles, size, used, b, Outcome(shuffles, size, used, 0).attempt + 1);
  }

  /** The first attempt of the scenario below: (A, B) is kept, then (C, D) is refused. */
  lemma AbandonedFirstAttempt()
    ensures !Accepts(["A", "B", "C", "D"], 2, {Key("C", "D")})
    ensures AttemptLog(["A", "B", "C", "D"], 2, {Key("C", "D")}) == [("A", "B")]
  {
    var first := ["A", "B", "C", "D"];
    var used := {Key("C", "D")};
    assert Key("C", "D") == ("C", "D");
    assert Key("A", "B") == ("A", "B");
    assert ChunksFrom(first, 4, 2) == [];
    assert first[2..Min(4, 4)] == ["C", "D"];
    assert ChunksFrom(first, 2, 2) == [["C", "D"]];
    assert first[0..Min(2, 4)] == ["A", "B"];
    assert Chunks(first, 2) == [["A", "B"], ["C", "D"]];
    assert ChunkValid(["A", "B"], used);
    assert !ChunkValid(["C", "D"], used) by {
      var cd := ["C", "D"];
      assert Key(cd[0], cd[1]) in used;
    }
    assert LeadingValid(Chunks(first, 2), used) == [["A", "B"]] by {
      LeadingValidUnique(Chunks(first, 2), [["A", "B"]], used);
    }
    assert ChunkPairs(["A", "B"]) == [("A", "B")];
  }

  /** The second attempt of the scenario below: both chunks are kept. */
  lemma AcceptedSecondAttempt()
    ensures Accepts(["A", "C", "B", "D"], 2, {Key("C", "D")})
    ensures Chunks(["A", "C", "B", "D"], 2) == [["A", "C"], ["B", "D"]]
    ensures AttemptLog(["A", "C", "B", "D"], 2, {Key("C", "D")}) == [("A", "C"), ("B", "D")]
  {
    var second := ["A", "C", "B", "D"];
    var used := {Key("C", "D")};
    assert Key("C", "D") == ("C", "D");
    assert Key("A", "C") == ("A", "C");
    assert Key("B", "D") == ("B", "D");
    assert ChunksFrom(second, 4, 2) == [];
    assert second[2..Min(4, 4)] == ["B", "D"];
    assert ChunksFrom(second, 2, 2) == [["B", "D"]];
    assert second[0..Min(2, 4)] == ["A", "C"];
    assert Chunks(second, 2) == [["A", "C"], ["B", "D"]];
    assert ChunkValid(["A", "C"], used) && ChunkValid(["B", "D"], used);
    assert LeadingValid(Chunks(second, 2), used) == Chunks(second, 2) by {
      LeadingValidUnique(Chunks(second, 2), Chunks(second, 2), used);
    }
    assert ChunkPairs(["A", "C"]) == [("A", "C")];
    assert ChunkPairs(["B", "D"]) == [("B", "D")];
  }

  /**
   * Records written by an abandoned attempt stay in the log: the first
   * permutation keeps A with B before finding C with D already paired, and the
   * pair (A, B) is in the log even though the second permutation is the one
   * accepted.
   */
  lemma AbandonedAttemptStaysRecorded()
    ensures var shuffles := [["A", "B", "C", "D"], ["A", "C", "B", "D"]];
            var used := {Key("C", "D")};
            Outcome(shuffles, 2, used, 0) == Formed([["A", "C"], ["B", "D"]], 1) &&
            LogBefore(shuffles, 2, used, 2) == [("A", "B"), ("A", "C"), ("B", "D")]
  {
    AbandonedFirstAttempt();
    AcceptedSecondAttempt();
    var shuffles := [["A", "B", "C", "D"], ["A", "C", "B", "D"]];
    var used := {Key("C", "D")};
    assert Outcome(shuffles, 2, used, 2) == Unsatisfied;
    assert LogBefore(shuffles, 2, used, 1) == [("A", "B")];
  }
}
