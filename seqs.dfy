/**
 * The array operations of JavaScript that the graph code uses
 * (`filter`, `some`, `find`, `reverse`, and a `Set` built from an array),
 * written as functions on sequences, with the facts the rest of the
 * model needs about them.
 */
module Seqs {
  import opened Js

  /** `s.filter(p)`: the elements satisfying `p`, in their original order. */
  function Filter<T(!new)>(s: seq<T>, p: T -> bool): (r: seq<T>)
    ensures |r| <= |s|
    ensures forall x :: x in r <==> x in s && p(x)
    ensures forall i :: 0 <= i < |r| ==> p(r[i])
  {
    if s == [] then [] else (if p(s[0]) then [s[0]] else []) + Filter(s[1..], p)
  }

  /** Filtering by a test every element passes changes nothing. */
  lemma {:induction false} FilterAll<T(!new)>(s: seq<T>, p: T -> bool)
    requires forall x :: x in s ==> p(x)
    ensures Filter(s, p) == s
  {
    if s != [] {
      assert p(s[0]);
      assert s == [s[0]] + s[1..];
      FilterAll(s[1..], p);
    }
  }

  /** Filtering distributes over concatenation, which is what "keeps the relative order" means. */
  lemma {:induction false} FilterConcat<T(!new)>(a: seq<T>, b: seq<T>, p: T -> bool)
    ensures Filter(a + b, p) == Filter(a, p) + Filter(b, p)
  {
    if a == [] {
      assert a + b == b;
    } else {
      assert (a + b)[0] == a[0];
      assert (a + b)[1..] == a[1..] + b;
      FilterConcat(a[1..], b, p);
    }
  }

  /** The kept and the dropped elements together are all of them. */
  lemma {:induction false} FilterSplitCount<T(!new)>(s: seq<T>, p: T -> bool)
    ensures |Filter(s, p)| + |Filter(s, x => !p(x))| == |s|
  {
    if s != [] {
      FilterSplitCount(s[1..], p);
    }
  }

  /** Filtering a reversed sequence is reversing the filtered one. */
  lemma {:induction false} FilterReverse<T(!new)>(s: seq<T>, p: T -> bool)
    ensures Filter(Reverse(s), p) == Reverse(Filter(s, p))
  {
    if s != [] {
      var last := s[|s| - 1];
      assert s == s[..|s| - 1] + [last];
      calc {
        Filter(Reverse(s), p);
        { assert Reverse(s)[0] == last; assert Reverse(s)[1..] == Reverse(s[..|s| - 1]); }
        (if p(last) then [last] else []) + Filter(Reverse(s[..|s| - 1]), p);
        { FilterReverse(s[..|s| - 1], p); }
        (if p(last) then [last] else []) + Reverse(Filter(s[..|s| - 1], p));
        { ReverseConcat(Filter(s[..|s| - 1], p), if p(last) then [last] else []); }
        Reverse(Filter(s[..|s| - 1], p) + (if p(last) then [last] else []));
        { FilterConcat(s[..|s| - 1], [last], p); }
        Reverse(Filter(s, p));
      }
    }
  }

  /** A suffix is its first element followed by the rest. */
  lemma SuffixCons<T>(s: seq<T>, j: int)
    requires 0 <= j < |s|
    ensures s[j..] == [s[j]] + s[j + 1..]
  {
  }

  /** `s.slice().reverse()`. */
  function Reverse<T>(s: seq<T>): (r: seq<T>)
    ensures |r| == |s|
    ensures forall i :: 0 <= i < |s| ==> r[i] == s[|s| - 1 - i]
  {
    if s == [] then [] else [s[|s| - 1]] + Reverse(s[..|s| - 1])
  }

  lemma ReverseConcat<T>(a: seq<T>, b: seq<T>)
    ensures Reverse(a + b) == Reverse(b) + Reverse(a)
  {
    var l, r := Reverse(a + b), Reverse(b) + Reverse(a);
    assert |l| == |r|;
    forall i | 0 <= i < |l| ensures l[i] == r[i] {
      if i < |b| {
        assert l[i] == (a + b)[|a| + |b| - 1 - i] == b[|b| - 1 - i];
      } else {
        assert l[i] == (a + b)[|a| + |b| - 1 - i] == a[|a| - 1 - (i - |b|)];
      }
    }
  }

  /** `s.some(p)`. */
  function Any<T>(s: seq<T>, p: T -> bool): (r: bool)
    ensures r <==> exists i :: 0 <= i < |s| && p(s[i])
  {
    if s == [] then false
    else if p(s[0]) then true
    else
      var rest := Any(s[1..], p);
      assert rest ==> exists i :: 0 <= i < |s| && p(s[i]) by {
        if rest {
          var j :| 0 <= j < |s| - 1 && p(s[1..][j]);
          assert p(s[j + 1]);
        }
      }
      assert (exists i :: 0 <= i < |s| && p(s[i])) ==> rest by {
        if exists i :: 0 <= i < |s| && p(s[i]) {
          var i :| 0 <= i < |s| && p(s[i]);
          assert i != 0;
          assert p(s[1..][i - 1]);
        }
      }
      rest
  }

  /** `s.findIndex(p)`, with `None` for -1. */
  function FindIndex<T>(s: seq<T>, p: T -> bool): (r: Option<nat>)
    ensures r.Some? ==> r.value < |s| && p(s[r.value]) && forall j :: 0 <= j < r.value ==> !p(s[j])
    ensures r.None? <==> forall i :: 0 <= i < |s| ==> !p(s[i])
  {
    if s == [] then None
    else if p(s[0]) then Some(0)
    else
      match FindIndex(s[1..], p)
      case None =>
        assert forall i :: 1 <= i < |s| ==> s[i] == s[1..][i - 1];
        None
      case Some(k) =>
        assert forall j :: 1 <= j < k + 1 ==> s[j] == s[1..][j - 1];
        Some(k + 1)
  }

  /** `s.find(p)`: the first element satisfying `p`. */
  function Find<T>(s: seq<T>, p: T -> bool): (r: Option<T>)
    ensures r.Some? ==> r.value in s && p(r.value)
    ensures r.None? <==> forall i :: 0 <= i < |s| ==> !p(s[i])
  {
    match FindIndex(s, p)
    case None => None
    case Some(i) => Some(s[i])
  }

  /** The elements of a sequence, as a set. */
  function Elems<T>(s: seq<T>): set<T> {
    set x | x in s
  }

  lemma ElemsAppend<T>(s: seq<T>, x: T)
    ensures Elems(s + [x]) == Elems(s) + {x}
  {
    assert forall y :: y in s + [x] <==> y in s || y == x;
  }

  /** No element occurs twice: what a JavaScript `Set` iterated in insertion order looks like. */
  predicate NoDup<T(==)>(s: seq<T>) {
    forall i, j :: 0 <= i < j < |s| ==> s[i] != s[j]
  }

  /** `Array.from(new Set(s))`: first occurrences, in order. */
  function Dedup<T(==,!new)>(s: seq<T>): (r: seq<T>)
    ensures NoDup(r)
    ensures forall x :: x in r <==> x in s
  {
    if s == [] then []
    else
      var d := Dedup(s[..|s| - 1]);
      assert forall x :: x in s <==> x in s[..|s| - 1] || x == s[|s| - 1] by {
        assert s == s[..|s| - 1] + [s[|s| - 1]];
      }
      if s[|s| - 1] in d then d else d + [s[|s| - 1]]
  }

  /** `set.delete(x)` on a `Set` kept in insertion order. */
  function Remove<T(==,!new)>(s: seq<T>, x: T): (r: seq<T>)
    requires NoDup(s)
    ensures NoDup(r)
    ensures forall y :: y in r <==> y in s && y != x
    ensures x in s ==> |r| == |s| - 1
    ensures x !in s ==> r == s
  {
    if s == [] then []
    else
      var rest := Remove(s[1..], x);
      assert s[0] !in s[1..] by {
        forall j | 0 <= j < |s| - 1 ensures s[1..][j] != s[0] {
          assert s[1..][j] == s[j + 1];
        }
      }
      if s[0] == x then rest
      else
        assert NoDup([s[0]] + rest) by {
          forall i, j | 0 <= i < j < |rest| + 1 ensures ([s[0]] + rest)[i] != ([s[0]] + rest)[j] {
            if i == 0 {
              assert ([s[0]] + rest)[j] == rest[j - 1];
              assert rest[j - 1] in rest;
            }
          }
        }
        [s[0]] + rest
  }

  lemma RemoveElems<T(!new)>(s: seq<T>, x: T)
    requires NoDup(s)
    ensures Elems(Remove(s, x)) == Elems(s) - {x}
  {
  }

  /** Without duplicates, `Array.from(new Set(s))` is `s` itself, in the same order. */
  lemma {:induction false} DedupNoDup<T(!new)>(s: seq<T>)
    requires NoDup(s)
    ensures Dedup(s) == s
  {
    if s != [] {
      var init := s[..|s| - 1];
      assert NoDup(init);
      DedupNoDup(init);
      assert s[|s| - 1] !in init;
      assert s == init + [s[|s| - 1]];
    }
  }

  /** `set.delete(x)` keeps the other elements in their order: it is `filter(y => y !== x)`. */
  lemma {:induction false} RemoveKeepsOrder<T(!new)>(s: seq<T>, x: T)
    requires NoDup(s)
    ensures Remove(s, x) == Filter(s, (y: T) => y != x)
  {
    if s != [] {
      assert NoDup(s[1..]) by {
        forall i, j | 0 <= i < j < |s| - 1 ensures s[1..][i] != s[1..][j] {
          assert s[1..][i] == s[i + 1] && s[1..][j] == s[j + 1];
        }
      }
      RemoveKeepsOrder(s[1..], x);
    }
  }

  /** The elements of `s` that are not in `t`, in their order in `s`. */
  function Outside<T(==)>(s: seq<T>, t: seq<T>): (r: seq<T>)
    ensures |r| <= |s|
  {
    if s == [] then [] else (if s[0] in t then [] else [s[0]]) + Outside(s[1..], t)
  }

  lemma {:induction false} OutsideElems<T>(s: seq<T>, t: seq<T>)
    ensures forall x :: x in Outside(s, t) <==> x in s && x !in t
  {
    if s != [] {
      OutsideElems(s[1..], t);
      assert forall x :: x in s <==> x == s[0] || x in s[1..];
    }
  }

  lemma {:induction false} OutsideNothing<T>(s: seq<T>)
    ensures Outside(s, []) == s
  {
    if s != [] {
      OutsideNothing(s[1..]);
    }
  }

  lemma {:induction false} OutsideConcat<T>(a: seq<T>, b: seq<T>, t: seq<T>)
    ensures Outside(a + b, t) == Outside(a, t) + Outside(b, t)
  {
    if a == [] {
      assert a + b == b;
    } else {
      assert (a + b)[0] == a[0];
      assert (a + b)[1..] == a[1..] + b;
      OutsideConcat(a[1..], b, t);
    }
  }

  lemma {:induction false} OutsideNoDup<T>(s: seq<T>, t: seq<T>)
    requires NoDup(s)
    ensures NoDup(Outside(s, t))
  {
    if s != [] {
      assert NoDup(s[1..]) by {
        forall i, j | 0 <= i < j < |s| - 1 ensures s[1..][i] != s[1..][j] {
          assert s[1..][i] == s[i + 1] && s[1..][j] == s[j + 1];
        }
      }
      OutsideNoDup(s[1..], t);
      OutsideElems(s[1..], t);
      assert s[0] !in s[1..] by {
        forall j | 0 <= j < |s| - 1 ensures s[1..][j] != s[0] {
          assert s[1..][j] == s[j + 1];
        }
      }
    }
  }

  /**
   * Splitting `s` just after its element `s[i]`, which is not in `t`: that
   * element lies outside `t` in the front part, and every later element not
   * in `t` lies outside `t` in the back part.
   */
  lemma OutsideSplit<T>(s: seq<T>, t: seq<T>, i: nat)
    requires NoDup(s) && i < |s| && s[i] !in t
    ensures Outside(s, t) == Outside(s[..i + 1], t) + Outside(s[i + 1..], t)
    ensures s[i] in Outside(s[..i + 1], t) && s[i] !in Outside(s[i + 1..], t)
    ensures forall j :: i < j < |s| && s[j] !in t ==> s[j] in Outside(s[i + 1..], t)
  {
    var front, back := s[..i + 1], s[i + 1..];
    assert s == front + back;
    OutsideConcat(front, back, t);
    OutsideElems(front, t);
    OutsideElems(back, t);
    assert front[i] == s[i];
    forall m | 0 <= m < |back| ensures back[m] != s[i] { assert back[m] == s[i + 1 + m]; }
    forall j | i < j < |s| && s[j] !in t ensures s[j] in Outside(back, t) { assert back[j - i - 1] == s[j]; }
  }

  /** Deleting `c` from what lies outside `t` leaves what lies outside `t + [c]`. */
  lemma {:induction false} OutsideRemove<T(!new)>(s: seq<T>, t: seq<T>, c: T)
    requires NoDup(s)
    ensures NoDup(Outside(s, t))
    ensures Remove(Outside(s, t), c) == Outside(s, t + [c])
  {
    OutsideNoDup(s, t);
    if s != [] {
      assert NoDup(s[1..]) by {
        forall i, j | 0 <= i < j < |s| - 1 ensures s[1..][i] != s[1..][j] {
          assert s[1..][i] == s[i + 1] && s[1..][j] == s[j + 1];
        }
      }
      OutsideRemove(s[1..], t, c);
      var rest := Outside(s[1..], t);
      var u := Outside(s, t);
      assert Outside(s, t + [c]) == (if s[0] in t + [c] then [] else [s[0]]) + Remove(rest, c);
      if s[0] in t {
        assert u == rest;
      } else {
        assert u == [s[0]] + rest;
        assert u[0] == s[0] && u[1..] == rest;
        if s[0] == c {
          assert Remove(u, c) == Remove(rest, c);
        } else {
          assert Remove(u, c) == [s[0]] + Remove(rest, c);
        }
      }
    }
  }

  /** A sequence without duplicates has as many distinct elements as it has positions. */
  lemma {:induction false} NoDupCard<T>(s: seq<T>)
    requires NoDup(s)
    ensures |set x | x in s| == |s|
  {
    if s != [] {
      var t := s[..|s| - 1];
      assert NoDup(t);
      NoDupCard(t);
      assert (set x | x in s) == (set x | x in t) + {s[|s| - 1]} by {
        assert s == t + [s[|s| - 1]];
      }
      assert s[|s| - 1] !in t;
    }
  }

  /** `R` holds of every pair of elements taken in their order in `s`. */
  predicate Pairwise<T>(s: seq<T>, R: (T, T) -> bool) {
    forall i, j :: 0 <= i < j < |s| ==> R(s[i], s[j])
  }

  /** Appending an element related to every earlier one keeps a pairwise relation. */
  lemma PairwiseAppend<T>(s: seq<T>, x: T, R: (T, T) -> bool)
    requires Pairwise(s, R)
    requires forall i :: 0 <= i < |s| ==> R(s[i], x)
    ensures Pairwise(s + [x], R)
  {
    forall i, j | 0 <= i < j < |s| + 1 ensures R((s + [x])[i], (s + [x])[j]) {
      assert (s + [x])[i] == s[i];
      if j < |s| {
        assert (s + [x])[j] == s[j];
      }
    }
  }

  /** Filtering keeps a relation that held of every ordered pair. */
  lemma {:induction false} FilterPairwise<T(!new)>(s: seq<T>, p: T -> bool, R: (T, T) -> bool)
    requires Pairwise(s, R)
    ensures Pairwise(Filter(s, p), R)
  {
    if s != [] {
      assert Pairwise(s[1..], R) by {
        forall i, j | 0 <= i < j < |s| - 1 ensures R(s[1..][i], s[1..][j]) {
          assert s[1..][i] == s[i + 1] && s[1..][j] == s[j + 1];
        }
      }
      FilterPairwise(s[1..], p, R);
      var rest := Filter(s[1..], p);
      if p(s[0]) {
        forall i, j | 0 <= i < j < |rest| + 1 ensures R(([s[0]] + rest)[i], ([s[0]] + rest)[j]) {
          if i == 0 {
            assert ([s[0]] + rest)[j] == rest[j - 1];
            assert rest[j - 1] in s[1..];
            var k :| 0 <= k < |s| - 1 && s[1..][k] == rest[j - 1];
            assert s[k + 1] == rest[j - 1];
          } else {
            assert ([s[0]] + rest)[i] == rest[i - 1] && ([s[0]] + rest)[j] == rest[j - 1];
          }
        }
      }
    }
  }
}
