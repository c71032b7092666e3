/** Sequence helpers shared by the model: Qt's QList operations that the
    clustering code relies on, written as functions over `seq`. */
module Lists {

  /** QList::removeOne: removes the first occurrence of `x`, if there is one. */
  function RemoveOne<T(==)>(s: seq<T>, x: T): (r: seq<T>)
    ensures multiset(r) == multiset(s) - multiset{x}
    ensures x !in s ==> r == s
  {
    if s == [] then []
    else
      assert s == [s[0]] + s[1..];
      if s[0] == x then s[1..] else [s[0]] + RemoveOne(s[1..], x)
  }

  /** Appending a value that is not yet present and then removing it gives the sequence back. */
  lemma {:induction false} RemoveOneAfterAppend<T>(s: seq<T>, x: T)
    requires x !in s
    ensures RemoveOne(s + [x], x) == s
  {
    if s != [] {
      assert (s + [x])[1..] == s[1..] + [x];
      RemoveOneAfterAppend(s[1..], x);
    }
  }

  /** Removing a value that is already present, after appending it again, takes out the earlier copy. */
  lemma {:induction false} RemoveOneAfterAppendPresent<T>(s: seq<T>, x: T)
    requires x in s
    ensures RemoveOne(s + [x], x) == RemoveOne(s, x) + [x]
  {
    if s[0] != x {
      assert (s + [x])[1..] == s[1..] + [x];
      RemoveOneAfterAppendPresent(s[1..], x);
    } else {
      assert (s + [x])[1..] == s[1..] + [x];
    }
  }

  /** Appending a value and removing one occurrence of it keeps the multiset. */
  lemma RemoveOneAfterAppendMultiset<T>(s: seq<T>, x: T)
    ensures multiset(RemoveOne(s + [x], x)) == multiset(s)
  {
  }

  /** Removing `x` from a sequence that holds the values of `s` plus `x` leaves the values of `s`. */
  lemma RemoveOneCancel<T>(y: seq<T>, s: seq<T>, x: T)
    requires multiset(y) == multiset(s) + multiset{x}
    ensures multiset(RemoveOne(y, x)) == multiset(s)
  {
  }

  /** The ids 0, 1, ..., n - 1 in ascending order (a freshly loaded vertex list). */
  function Range(n: nat): (r: seq<nat>)
    ensures |r| == n
    ensures forall i :: 0 <= i < n ==> r[i] == i
  {
    if n == 0 then [] else Range(n - 1) + [n - 1]
  }

  /** Every element of a range occurs once. */
  lemma {:induction false} RangeMultiset(n: nat, v: nat)
    ensures multiset(Range(n))[v] == if v < n then 1 else 0
  {
    if n > 0 {
      RangeMultiset(n - 1, v);
      var last: nat := n - 1;
      var prev: seq<nat> := Range(n - 1);
      assert Range(n) == prev + [last];
      assert multiset(Range(n)) == multiset(prev) + multiset{last};
      assert multiset(Range(n))[v] == multiset(prev)[v] + (if v == last then 1 else 0);
    }
  }

  /** No value occurs twice. */
  ghost predicate Distinct<T>(s: seq<T>)
  {
    forall i, j :: 0 <= i < j < |s| ==> s[i] != s[j]
  }

  /** A sequence whose every value occurs at most once has a multiset with counts at most one. */
  lemma {:induction false} DistinctCounts<T>(s: seq<T>, x: T)
    requires Distinct(s)
    ensures multiset(s)[x] == if x in s then 1 else 0
  {
    if s != [] {
      assert s == [s[0]] + s[1..];
      assert Distinct(s[1..]) by {
        forall i, j | 0 <= i < j < |s[1..]| ensures s[1..][i] != s[1..][j] {
          assert s[1..][i] == s[i + 1] && s[1..][j] == s[j + 1];
        }
      }
      DistinctCounts(s[1..], x);
      if s[0] == x {
        assert x !in s[1..] by {
          forall k | 0 <= k < |s[1..]| ensures s[1..][k] != x {
            assert s[1..][k] == s[k + 1];
          }
        }
      }
    }
  }

  /** A non-empty list is its front followed by its last element. */
  lemma LastSplit<T>(s: seq<T>)
    requires s != []
    ensures s == s[..|s| - 1] + [s[|s| - 1]]
  {
  }

  /** The prefix one longer is the prefix and the next element. */
  lemma TakeSnoc<T>(s: seq<T>, k: nat)
    requires k < |s|
    ensures s[..k + 1] == s[..k] + [s[k]]
  {
  }

  /** Sum of a sequence of naturals (a quint64 accumulator without wrap-around). */
  function Sum(s: seq<nat>): nat
  {
    if s == [] then 0 else Sum(s[..|s| - 1]) + s[|s| - 1]
  }

  lemma SumAppend(s: seq<nat>, x: nat)
    ensures Sum(s + [x]) == Sum(s) + x
  {
    assert (s + [x])[..|s + [x]| - 1] == s;
  }

  /** The distinct values of a sequence (`QList::toSet`). */
  function Elements(s: seq<nat>): set<nat>
  {
    set x | x in s
  }

  lemma ElementsAppend(s: seq<nat>, x: nat)
    ensures Elements(s + [x]) == Elements(s) + {x}
  {
    assert forall y :: y in s + [x] <==> y in s || y == x;
  }

  lemma {:induction false} SumConcat(s: seq<nat>, t: seq<nat>)
    ensures Sum(s + t) == Sum(s) + Sum(t)
  {
    if t == [] {
      assert s + t == s;
    } else {
      var k := |t| - 1;
      assert s + t == (s + t[..k]) + [t[k]];
      assert t == t[..k] + [t[k]];
      SumConcat(s, t[..k]);
      SumAppend(s + t[..k], t[k]);
      SumAppend(t[..k], t[k]);
    }
  }

  /** The size of a sequence's value set is at most its length. */
  lemma {:induction false} ElementsSize(s: seq<nat>)
    ensures |Elements(s)| <= |s|
  {
    if s != [] {
      var k := |s| - 1;
      assert s == s[..k] + [s[k]];
      ElementsAppend(s[..k], s[k]);
      ElementsSize(s[..k]);
    }
  }

  /** The lists of a partition one after another, in order. */
  function Flatten(ls: seq<seq<nat>>): seq<nat>
  {
    if ls == [] then [] else Flatten(ls[..|ls| - 1]) + ls[|ls| - 1]
  }

  /** An id is in the flattened partition exactly when some list holds it. */
  lemma {:induction false} FlattenMembership(ls: seq<seq<nat>>, x: nat)
    ensures x in Flatten(ls) <==> exists i :: 0 <= i < |ls| && x in ls[i]
  {
    if ls != [] {
      var k := |ls| - 1;
      FlattenMembership(ls[..k], x);
      if x in ls[k] {
      } else if x in Flatten(ls[..k]) {
        var i :| 0 <= i < k && x in ls[..k][i];
        assert ls[i] == ls[..k][i];
      } else {
        forall i | 0 <= i < |ls| ensures x !in ls[i] {
          if i < k {
            assert ls[i] == ls[..k][i];
          }
        }
      }
    }
  }
}
