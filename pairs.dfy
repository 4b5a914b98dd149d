/**
 * Participant ids and the canonical pair key under which the history of
 * past groupings is compared (main.py, lines 102 and 108).
 */
module Pairs {

  /** A registration number; the Firestore document id of a user. */
  type Id = string

  /** One history record `(user1, user2)`, also the shape of a canonical key. */
  type Pair = (Id, Id)

  /** Python's `<` on `str`: code-point lexicographic order, a proper prefix first. */
  predicate Less(a: Id, b: Id)
    decreases |a|
  {
    if |a| == 0 then |b| > 0
    else if |b| == 0 then false
    else if a[0] != b[0] then a[0] < b[0]
    else Less(a[1..], b[1..])
  }

  /** `Less` is a strict total order: asymmetric (hence irreflexive) and total on distinct ids. */
  lemma {:induction false} LessIsStrictTotal(a: Id, b: Id)
    ensures !(Less(a, b) && Less(b, a))
    ensures a != b ==> Less(a, b) || Less(b, a)
    decreases |a|
  {
    if |a| > 0 && |b| > 0 && a[0] == b[0] {
      LessIsStrictTotal(a[1..], b[1..]);
      assert a == [a[0]] + a[1..] && b == [b[0]] + b[1..];
    }
  }

  /**
   * The stored form of a pair, `tuple(sorted([a, b]))`: Python's sort is stable,
   * so the two ids are swapped only when the second is strictly smaller.
   */
  function Key(a: Id, b: Id): (k: Pair)
    ensures k == (a, b) || k == (b, a)
  {
    if Less(b, a) then (b, a) else (a, b)
  }

  /** The key is sorted: its second component is never smaller than its first. */
  lemma KeySorted(a: Id, b: Id)
    ensures !Less(Key(a, b).1, Key(a, b).0)
  {
    LessIsStrictTotal(a, b);
  }

  /** `(a, b)` and `(b, a)` denote the same forbidden relationship. */
  lemma KeySymmetric(a: Id, b: Id)
    ensures Key(a, b) == Key(b, a)
  {
    LessIsStrictTotal(a, b);
  }

  /** Two keys coincide exactly when they are built from the same unordered pair. */
  lemma KeyIdentifiesPair(a: Id, b: Id, c: Id, d: Id)
    ensures Key(a, b) == Key(c, d) <==> (a == c && b == d) || (a == d && b == c)
  {
    KeySymmetric(a, b);
    KeySymmetric(c, d);
  }

  /** `used_pairs`: the set of canonical keys of every record in the history log. */
  function Snapshot(log: seq<Pair>): set<Pair>
  {
    set p | p in log :: Key(p.0, p.1)
  }

  /** A recorded pair is reported whichever order it is asked in. */
  lemma SnapshotEitherOrder(log: seq<Pair>, a: Id, b: Id)
    requires (a, b) in log
    ensures Key(a, b) in Snapshot(log) && Key(b, a) in Snapshot(log)
  {
    KeySymmetric(a, b);
  }

  /** The snapshot of a longer log is the union of the snapshots of its parts. */
  lemma SnapshotAppend(l1: seq<Pair>, l2: seq<Pair>)
    ensures Snapshot(l1 + l2) == Snapshot(l1) + Snapshot(l2)
  {
  }

  /** Recording a pair that is already known, in either order, leaves the snapshot unchanged. */
  lemma RecordingKnownPairIsNoOp(log: seq<Pair>, p: Pair)
    requires Key(p.0, p.1) in Snapshot(log)
    ensures Snapshot(log + [p]) == Snapshot(log)
  {
  }
}
