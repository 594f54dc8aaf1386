/**
 * The ant's memory of visited cells: an insertion-ordered set (the
 * `OrderedDict` of `simulation/ant.py`) held as a duplicate-free sequence,
 * oldest entry first.
 */
module Visited {
  import opened Common
  import opened Seqs

  /** A memory size an ant can be given: at least one cell. */
  type MemorySize = n: int | 1 <= n witness 1

  /**
   * `add_to_visited`: a remembered position is moved to the newest end; a new
   * position is appended, after dropping the oldest entry when the memory is full.
   */
  function AddToVisited(v: seq<Coords>, p: Coords, maxMemory: MemorySize): (r: seq<Coords>)
    ensures |r| > 0 && r[|r| - 1] == p
    ensures NoDup(v) ==> NoDup(r)
    ensures NoDup(v) && p in v ==> |r| == |v| && r[..|r| - 1] == RemoveFirst(v, p)
    ensures p !in v && |v| >= maxMemory ==> |r| == |v| && r[..|r| - 1] == v[1..]
    ensures p !in v && |v| < maxMemory ==> |r| == |v| + 1 && r[..|r| - 1] == v
    ensures |v| <= maxMemory ==> |r| <= maxMemory
  {
    if p in v then
      RemoveFirstNoDupWhenNoDup(v, p);
      RemoveFirst(v, p) + [p]
    else if |v| >= maxMemory then
      assert NoDup(v) ==> NoDup(v[1..] + [p]) by {
        if NoDup(v) {
          forall i, j | 0 <= i < j < |v| ensures (v[1..] + [p])[i] != (v[1..] + [p])[j] {
            if j < |v| - 1 {
              assert (v[1..] + [p])[i] == v[i + 1];
            } else {
              assert (v[1..] + [p])[i] in v;
            }
          }
        }
      }
      v[1..] + [p]
    else
      assert NoDup(v) ==> NoDup(v + [p]) by {
        if NoDup(v) {
          forall i, j | 0 <= i < j < |v| + 1 ensures (v + [p])[i] != (v + [p])[j] {
            if j == |v| {
              assert (v + [p])[i] in v;
            }
          }
        }
      }
      v + [p]
  }

  lemma RemoveFirstNoDupWhenNoDup(v: seq<Coords>, p: Coords)
    ensures NoDup(v) ==> NoDup(RemoveFirst(v, p) + [p])
  {
    if NoDup(v) {
      RemoveFirstNoDup(v, p);
      var r := RemoveFirst(v, p);
      forall i, j | 0 <= i < j < |r| + 1 ensures (r + [p])[i] != (r + [p])[j] {
        if j == |r| {
          assert (r + [p])[i] == r[i];
        }
      }
    }
  }

  /** After adding `p` it is the newest entry and occurs exactly once. */
  lemma AddedOnce(v: seq<Coords>, p: Coords, maxMemory: MemorySize)
    requires NoDup(v)
    ensures p !in AddToVisited(v, p, maxMemory)[..|AddToVisited(v, p, maxMemory)| - 1]
  {
    var r := AddToVisited(v, p, maxMemory);
    assert r[|r| - 1] == p;
    forall k | 0 <= k < |r| - 1 ensures r[k] != p {
    }
  }

  /**
   * The cells remembered after an addition: the new one and the old ones,
   * except the oldest when it had to make room.
   */
  lemma AddToVisitedElements(v: seq<Coords>, p: Coords, maxMemory: MemorySize, q: Coords)
    requires NoDup(v)
    ensures (p in v || |v| < maxMemory) ==>
              (q in AddToVisited(v, p, maxMemory) <==> q in v || q == p)
    ensures (p !in v && |v| >= maxMemory) ==>
              (q in AddToVisited(v, p, maxMemory) <==> (q in v && q != v[0]) || q == p)
  {
    var r := AddToVisited(v, p, maxMemory);
    assert r == r[..|r| - 1] + [p];
    if p in v {
      RemoveFirstNoDup(v, p);
    } else if |v| >= maxMemory {
      assert v == [v[0]] + v[1..];
    }
  }
}
