/**
 * Sequence operations the Python code takes from its list and dict
 * built-ins: `reversed`, list comprehensions with a condition,
 * `list.remove` and `sorted`.
 */
module Seqs {
  import opened Common

  /** `reversed(s)` as a list. */
  function Reverse<T>(s: seq<T>): (r: seq<T>)
    ensures |r| == |s|
    ensures forall i :: 0 <= i < |s| ==> r[i] == s[|s| - 1 - i]
  {
    if |s| == 0 then [] else Reverse(s[1..]) + [s[0]]
  }

  /** Reversal keeps the elements and their distinctness. */
  lemma ReverseKeepsElements<T>(s: seq<T>)
    ensures forall x :: x in Reverse(s) <==> x in s
    ensures NoDup(s) ==> NoDup(Reverse(s))
  {
    var r := Reverse(s);
    forall x | x in s ensures x in r {
      var i :| 0 <= i < |s| && s[i] == x;
      assert r[|s| - 1 - i] == x;
    }
    if NoDup(s) {
      forall i, j | 0 <= i < j < |r| ensures r[i] != r[j] {
        assert r[i] == s[|s| - 1 - i] && r[j] == s[|s| - 1 - j];
      }
    }
  }

  /** `[x for x in s if keep(x)]`: the kept elements, in their original order. */
  function Filter<T>(s: seq<T>, keep: T -> bool): (r: seq<T>)
    ensures |r| <= |s|
    ensures forall i :: 0 <= i < |r| ==> r[i] in s && keep(r[i])
    ensures forall i :: 0 <= i < |s| && keep(s[i]) ==> s[i] in r
  {
    if |s| == 0 then [] else (if keep(s[0]) then [s[0]] else []) + Filter(s[1..], keep)
  }

  /** Filtering a concatenation filters each part, so the relative order is kept. */
  lemma {:induction false} FilterAppend<T>(a: seq<T>, b: seq<T>, keep: T -> bool)
    ensures Filter(a + b, keep) == Filter(a, keep) + Filter(b, keep)
  {
    if |a| == 0 {
      assert a + b == b;
    } else {
      assert (a + b)[1..] == a[1..] + b;
      FilterAppend(a[1..], b, keep);
    }
  }

  /** Filtering a duplicate-free sequence leaves it duplicate-free. */
  lemma {:induction false} FilterNoDup<T>(s: seq<T>, keep: T -> bool)
    requires NoDup(s)
    ensures NoDup(Filter(s, keep))
  {
    if |s| > 0 {
      assert NoDup(s[1..]) by {
        forall i, j | 0 <= i < j < |s| - 1 ensures s[1..][i] != s[1..][j] {
          assert s[1..][i] == s[i + 1] && s[1..][j] == s[j + 1];
        }
      }
      FilterNoDup(s[1..], keep);
      var rest := Filter(s[1..], keep);
      assert forall k :: 0 <= k < |rest| ==> rest[k] != s[0] by {
        forall k | 0 <= k < |rest| ensures rest[k] != s[0] {
          var m :| 0 <= m < |s[1..]| && s[1..][m] == rest[k];
          assert s[m + 1] == rest[k];
        }
      }
    }
  }

  /** Position of the first occurrence of `x` (`list.index`). */
  function IndexOf<T(==)>(s: seq<T>, x: T): (i: nat)
    requires x in s
    ensures i < |s| && s[i] == x && x !in s[..i]
  {
    if s[0] == x then 0
    else
      var j := IndexOf(s[1..], x);
      assert s[..j + 1] == [s[0]] + s[1..][..j];
      j + 1
  }

  /** `list.remove(x)`: deletes the first occurrence of `x`; nothing happens to a list without `x`. */
  function RemoveFirst<T(==)>(s: seq<T>, x: T): (r: seq<T>)
    ensures x !in s ==> r == s
    ensures x in s ==> |r| == |s| - 1
    ensures x in s ==> exists i :: 0 <= i < |s| && s[i] == x && x !in s[..i] && r == s[..i] + s[i + 1..]
    ensures multiset(r) == multiset(s) - multiset{x}
  {
    if x in s then
      var i := IndexOf(s, x);
      assert s == s[..i] + [x] + s[i + 1..];
      s[..i] + s[i + 1..]
    else
      s
  }

  /** Removing from a duplicate-free sequence keeps it duplicate-free and drops exactly `x`. */
  lemma RemoveFirstNoDup<T>(s: seq<T>, x: T)
    requires NoDup(s)
    ensures NoDup(RemoveFirst(s, x))
    ensures x !in RemoveFirst(s, x)
    ensures forall y :: y != x ==> (y in RemoveFirst(s, x) <==> y in s)
  {
    if x in s {
      var i := IndexOf(s, x);
      assert RemoveFirst(s, x) == s[..i] + s[i + 1..];
      DeleteAtNoDup(s, i);
    }
  }

  /** Index in the original sequence of position `k` after the element at `i` was removed. */
  function Skip(k: nat, i: nat): nat {
    if k < i then k else k + 1
  }

  /** A sequence is its part before `i`, the element at `i`, and its part after. */
  lemma SplitAt<T>(s: seq<T>, i: nat)
    requires i < |s|
    ensures s == s[..i] + ([s[i]] + s[i + 1..])
  {
    assert s[i..] == [s[i]] + s[i + 1..];
    assert s == s[..i] + s[i..];
  }

  lemma DeleteAt<T>(s: seq<T>, i: nat)
    requires i < |s|
    ensures |s[..i] + s[i + 1..]| == |s| - 1
    ensures forall k :: 0 <= k < |s| - 1 ==> (s[..i] + s[i + 1..])[k] == s[Skip(k, i)]
  {
  }

  /** Deleting position `i` of a duplicate-free sequence removes exactly the value there. */
  lemma DeleteAtNoDup<T>(s: seq<T>, i: nat)
    requires i < |s| && NoDup(s)
    ensures NoDup(s[..i] + s[i + 1..])
    ensures s[i] !in s[..i] + s[i + 1..]
    ensures forall y :: y != s[i] ==> (y in s[..i] + s[i + 1..] <==> y in s)
  {
    var r := s[..i] + s[i + 1..];
    DeleteAt(s, i);
    forall a, b | 0 <= a < b < |r| ensures r[a] != r[b] {
      assert Skip(a, i) < Skip(b, i);
    }
    forall k | 0 <= k < |r| ensures r[k] != s[i] {
      assert Skip(k, i) != i;
    }
    forall y | y in s && y != s[i] ensures y in r {
      var k :| 0 <= k < |s| && s[k] == y;
      var k' := if k < i then k else k - 1;
      assert r[k'] == s[Skip(k', i)];
    }
  }

  /** Non-decreasing order. */
  predicate Sorted(s: seq<int>) {
    forall i, j :: 0 <= i < j < |s| ==> s[i] <= s[j]
  }

  /** Removing an element keeps a sorted sequence sorted. */
  lemma RemoveFirstSorted(s: seq<int>, x: int)
    requires Sorted(s)
    ensures Sorted(RemoveFirst(s, x))
  {
    if x in s {
      var i := IndexOf(s, x);
      var r := s[..i] + s[i + 1..];
      assert RemoveFirst(s, x) == r;
      DeleteAt(s, i);
      forall a, b | 0 <= a < b < |r| ensures r[a] <= r[b] {
        assert Skip(a, i) < Skip(b, i);
      }
    }
  }

  /** Inserts `x` into a sorted sequence at its place. */
  function Insert(x: int, s: seq<int>): (r: seq<int>)
    requires Sorted(s)
    ensures Sorted(r)
    ensures multiset(r) == multiset(s) + multiset{x}
    ensures |r| == |s| + 1
    ensures forall i :: 0 <= i < |r| ==> r[i] == x || r[i] in s
  {
    if |s| == 0 then [x]
    else if x <= s[0] then
      InsertFront(x, s);
      [x] + s
    else
      var rest := Insert(x, s[1..]);
      InsertBehind(x, s, rest);
      [s[0]] + rest
  }

  /** `x` goes in front of a sorted sequence whose first element is no smaller. */
  lemma InsertFront(x: int, s: seq<int>)
    requires Sorted(s) && 0 < |s| && x <= s[0]
    ensures Sorted([x] + s)
  {
    assert forall i :: 0 <= i < |s| ==> s[0] <= s[i];
    SortedCons(x, s);
  }

  /** Putting the head back in front of the insertion into the tail. */
  lemma InsertBehind(x: int, s: seq<int>, rest: seq<int>)
    requires Sorted(s) && 0 < |s| && s[0] < x
    requires Sorted(rest) && multiset(rest) == multiset(s[1..]) + multiset{x}
    requires forall i :: 0 <= i < |rest| ==> rest[i] == x || rest[i] in s[1..]
    ensures Sorted([s[0]] + rest)
    ensures multiset([s[0]] + rest) == multiset(s) + multiset{x}
    ensures forall i :: 0 <= i < |rest| + 1 ==> ([s[0]] + rest)[i] == x || ([s[0]] + rest)[i] in s
  {
    assert s == [s[0]] + s[1..];
    forall i | 0 <= i < |rest| ensures s[0] <= rest[i] {
      if rest[i] != x {
        var k :| 0 <= k < |s[1..]| && s[1..][k] == rest[i];
        assert s[k + 1] == rest[i];
      }
    }
    SortedCons(s[0], rest);
  }

  /** A sorted sequence stays sorted below a value no larger than its elements. */
  lemma SortedCons(a: int, t: seq<int>)
    requires Sorted(t) && forall i :: 0 <= i < |t| ==> a <= t[i]
    ensures Sorted([a] + t)
  {
    forall i, j | 0 <= i < j < |t| + 1 ensures ([a] + t)[i] <= ([a] + t)[j] {
      assert ([a] + t)[j] == t[j - 1];
    }
  }

  /** `sorted(s)`: an ordered permutation of `s`. */
  function Sort(s: seq<int>): (r: seq<int>)
    ensures Sorted(r)
    ensures multiset(r) == multiset(s)
    ensures |r| == |s|
  {
    if |s| == 0 then []
    else
      assert s == [s[0]] + s[1..];
      Insert(s[0], Sort(s[1..]))
  }

  /** A concatenation is duplicate-free iff both parts are and they share no element. */
  lemma NoDupConcat<T>(a: seq<T>, b: seq<T>)
    ensures NoDup(a + b) <==> NoDup(a) && NoDup(b) && (forall x :: x in a ==> x !in b)
  {
    var s := a + b;
    if NoDup(s) {
      forall i, j | 0 <= i < j < |a| ensures a[i] != a[j] {
        assert a[i] == s[i] && a[j] == s[j];
      }
      forall i, j | 0 <= i < j < |b| ensures b[i] != b[j] {
        assert b[i] == s[|a| + i] && b[j] == s[|a| + j];
      }
      forall i, j | 0 <= i < |a| && 0 <= j < |b| ensures a[i] != b[j] {
        assert a[i] == s[i] && b[j] == s[|a| + j];
      }
    }
    if NoDup(a) && NoDup(b) && (forall x :: x in a ==> x !in b) {
      forall i, j | 0 <= i < j < |s| ensures s[i] != s[j] {
        if j < |a| {
          assert s[i] == a[i] && s[j] == a[j];
        } else if i < |a| {
          assert s[i] == a[i] && a[i] in a;
          assert s[j] == b[j - |a|] && b[j - |a|] in b;
        } else {
          assert s[i] == b[i - |a|] && s[j] == b[j - |a|];
        }
      }
    }
  }

  /** Replacing the middle part by a duplicate-free selection of its elements keeps a sequence duplicate-free. */
  lemma NoDupMiddle<T>(a: seq<T>, b: seq<T>, b': seq<T>, c: seq<T>)
    requires NoDup(a + b + c) && NoDup(b') && forall x :: x in b' ==> x in b
    ensures NoDup(a + b' + c)
  {
    NoDupConcat(a + b, c);
    NoDupConcat(a, b);
    NoDupConcat(a, b');
    NoDupConcat(a + b', c);
  }

  /** Inserting new elements, distinct among themselves and from the rest, keeps a sequence duplicate-free. */
  lemma NoDupInsert<T>(a: seq<T>, b: seq<T>, c: seq<T>)
    requires NoDup(a + c) && NoDup(b) && forall x :: x in b ==> x !in a + c
    ensures NoDup(a + b + c)
  {
    NoDupConcat(a, c);
    NoDupConcat(a, b);
    NoDupConcat(a + b, c);
  }

  /** `range(lo, hi)`. */
  function Range(lo: nat, hi: nat): (r: seq<nat>)
    requires lo <= hi
    ensures |r| == hi - lo
    ensures forall i :: 0 <= i < |r| ==> r[i] == lo + i
    ensures NoDup(r)
    ensures forall x :: x in r <==> lo <= x < hi
  {
    var r := seq(hi - lo, i requires 0 <= i => lo + i);
    forall x | lo <= x < hi ensures x in r {
      assert r[x - lo] == x;
    }
    forall x | x in r ensures lo <= x < hi {
      var i :| 0 <= i < |r| && r[i] == x;
    }
    r
  }

  /** Consecutive ranges join up. */
  lemma RangeAppend(lo: nat, mid: nat, hi: nat)
    requires lo <= mid <= hi
    ensures Range(lo, mid) + Range(mid, hi) == Range(lo, hi)
  {
  }
}
