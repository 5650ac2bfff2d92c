/**
 * The priority queue of the batch algorithms: an array of (item, priority)
 * pairs kept sorted by priority.  `enqueue` pushes the pair and re-sorts
 * with a stable sort, `dequeue` shifts the first pair off.
 */
module PriorityQueues {
  import opened Js
  import Seqs

  /** Non-decreasing by priority. */
  predicate Sorted<T>(s: seq<(T, int)>) {
    forall i, j :: 0 <= i < j < |s| ==> s[i].1 <= s[j].1
  }

  /**
   * `s.push(x); s.sort((a, b) => a[1] - b[1])` on a sorted `s`: the sort is
   * stable, so the pushed pair lands after every pair whose priority is not
   * larger than its own.
   */
  function Insert<T>(s: seq<(T, int)>, x: (T, int)): seq<(T, int)> {
    if s == [] || x.1 < s[0].1 then [x] + s else [s[0]] + Insert(s[1..], x)
  }

  /** The number of leading pairs of `s` whose priority is at most `p`: where `Insert` puts a pair of priority `p`. */
  function Place<T>(s: seq<(T, int)>, p: int): (k: nat)
    ensures k <= |s|
  {
    if s == [] || p < s[0].1 then 0 else 1 + Place(s[1..], p)
  }

  /**
   * Inserting splits a sorted `s` at `Place`: every pair before the new one
   * has a priority at most its own, every pair after it a larger one, and
   * the old pairs keep their order.
   */
  lemma {:induction false} InsertSplits<T>(s: seq<(T, int)>, x: (T, int))
    requires Sorted(s)
    ensures Insert(s, x) == s[..Place(s, x.1)] + [x] + s[Place(s, x.1)..]
    ensures forall i :: 0 <= i < Place(s, x.1) ==> s[i].1 <= x.1
    ensures forall i :: Place(s, x.1) <= i < |s| ==> x.1 < s[i].1
  {
    if s == [] || x.1 < s[0].1 {
      assert Place(s, x.1) == 0;
    } else {
      assert Sorted(s[1..]) by {
        forall i, j | 0 <= i < j < |s| - 1 ensures s[1..][i].1 <= s[1..][j].1 {
          assert s[1..][i] == s[i + 1] && s[1..][j] == s[j + 1];
        }
      }
      InsertSplits(s[1..], x);
      var k := Place(s[1..], x.1);
      assert s[..k + 1] == [s[0]] + s[1..][..k];
      assert s[k + 1..] == s[1..][k..];
      forall i | 0 <= i < k + 1 ensures s[i].1 <= x.1 {
        if i > 0 {
          assert s[i] == s[1..][i - 1];
        }
      }
      forall i | k + 1 <= i < |s| ensures x.1 < s[i].1 {
        assert s[i] == s[1..][i - 1];
      }
    }
  }

  /** After `enqueue` the array is still sorted. */
  lemma InsertSorted<T>(s: seq<(T, int)>, x: (T, int))
    requires Sorted(s)
    ensures Sorted(Insert(s, x))
  {
    InsertSplits(s, x);
    var k := Place(s, x.1);
    var r := Insert(s, x);
    forall i, j | 0 <= i < j < |r| ensures r[i].1 <= r[j].1 {
      if j < k {
        assert r[i] == s[i] && r[j] == s[j];
      } else if j == k {
        assert r[i] == s[i] && r[j] == x;
      } else if i < k {
        assert r[i] == s[i] && r[j] == s[j - 1];
      } else if i == k {
        assert r[i] == x && r[j] == s[j - 1];
      } else {
        assert r[i] == s[i - 1] && r[j] == s[j - 1];
      }
    }
  }

  /** After `enqueue` the array holds the old pairs and the new one, and nothing else. */
  lemma {:induction false} InsertPermutes<T>(s: seq<(T, int)>, x: (T, int))
    ensures multiset(Insert(s, x)) == multiset(s) + multiset{x}
  {
    if s != [] && s[0].1 <= x.1 {
      InsertPermutes(s[1..], x);
      assert s == [s[0]] + s[1..];
    }
  }

  /** The first pair of a sorted array has the smallest priority. */
  lemma FirstIsMin<T>(s: seq<(T, int)>)
    requires Sorted(s) && s != []
    ensures forall e :: e in s ==> s[0].1 <= e.1
  {
    forall e | e in s ensures s[0].1 <= e.1 {
      var i :| 0 <= i < |s| && s[i] == e;
      if i > 0 {
        assert s[0].1 <= s[i].1;
      }
    }
  }

  class PriorityQueue<T(==)> {
    var elements: seq<(T, int)>

    predicate Valid()
      reads this
    {
      Sorted(elements)
    }

    constructor ()
      ensures Valid() && elements == []
    {
      elements := [];
    }

    /** `enqueue(item, priority)`: the pair joins the array, which stays sorted. */
    method Enqueue(item: T, priority: int)
      requires Valid()
      modifies this
      ensures Valid()
      ensures elements == Insert(old(elements), (item, priority))
      ensures multiset(elements) == multiset(old(elements)) + multiset{(item, priority)}
    {
      InsertSorted(elements, (item, priority));
      InsertPermutes(elements, (item, priority));
      elements := Insert(elements, (item, priority));
    }

    /** `dequeue()`: the item of smallest priority, first enqueued among equals; `undefined` when empty. */
    method Dequeue() returns (r: Option<T>)
      requires Valid()
      modifies this
      ensures Valid()
      ensures old(elements) == [] ==> r.None? && elements == []
      ensures old(elements) != [] ==>
        r == Some(old(elements)[0].0) && elements == old(elements)[1..] &&
        forall e :: e in old(elements) ==> old(elements)[0].1 <= e.1
    {
      if elements == [] {
        return None;
      }
      FirstIsMin(elements);
      r := Some(elements[0].0);
      elements := elements[1..];
    }

    /** `isEmpty()`. */
    function IsEmpty(): (r: bool)
      reads this
      ensures r <==> |elements| == 0
    {
      elements == []
    }

    /** `contains(item)`: some pair carries the item. */
    function Contains(item: T): (r: bool)
      reads this
      ensures r <==> exists i :: 0 <= i < |elements| && elements[i].0 == item
    {
      Seqs.Any(elements, (e: (T, int)) => e.0 == item)
    }
  }
}
