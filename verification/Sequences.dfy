/** Sequences without repetition, their elements, and concatenation of lists. */
module Sequences {

  ghost predicate NoDuplicates<T>(s: seq<T>) {
    forall i, j | 0 <= i < j < |s| :: s[i] != s[j]
  }

  /** A sequence of distinct numbers below `n` has at most `n` elements. */
  lemma {:induction false} Pigeonhole(s: seq<nat>, n: nat)
    requires NoDuplicates(s) && forall i | 0 <= i < |s| :: s[i] < n
    ensures |s| <= n
    decreases n
  {
    if s == [] {
    } else if i :| 0 <= i < |s| && s[i] == n - 1 {
      var rest := s[..i] + s[i + 1..];
      forall j | 0 <= j < |rest| ensures rest[j] < n - 1 {
        assert rest[j] == if j < i then s[j] else s[j + 1];
      }
      Pigeonhole(rest, n - 1);
    } else {
      assert s[0] < n;
      Pigeonhole(s, n - 1);
    }
  }

  /** Two lists without repetition and without common elements, one after the other. */
  lemma DistinctJoin<T>(before: seq<T>, after: seq<T>)
    requires before <= after && NoDuplicates(before) && NoDuplicates(after[|before|..])
    requires forall j, k | 0 <= j < |before| <= k < |after| :: after[j] != after[k]
    ensures NoDuplicates(after)
  {
    forall i, j | 0 <= i < j < |after| ensures after[i] != after[j] {
      if j < |before| {
        assert before[i] != before[j];
      } else if |before| <= i {
        assert after[|before|..][i - |before|] != after[|before|..][j - |before|];
      }
    }
  }

  /** A sequence of distinct elements of a finite set is no longer than the set is large. */
  lemma {:induction false} DistinctFits<T>(s: seq<T>, all: set<T>)
    requires NoDuplicates(s) && forall i | 0 <= i < |s| :: s[i] in all
    ensures |s| <= |all|
  {
    if s != [] {
      var init, last := s[..|s| - 1], s[|s| - 1];
      assert forall i | 0 <= i < |init| :: init[i] == s[i];
      DistinctFits(init, all - {last});
    }
  }

  function Elements<T>(s: seq<T>): set<T> {
    set x | x in s
  }

  function Flatten<T>(lists: seq<seq<T>>): seq<T> {
    if lists == [] then [] else lists[0] + Flatten(lists[1..])
  }

  lemma {:induction false} FlattenSnoc<T>(lists: seq<seq<T>>, list: seq<T>)
    ensures Flatten(lists + [list]) == Flatten(lists) + list
  {
    if lists == [] {
      assert ([] + [list])[1..] == [];
    } else {
      FlattenSnoc(lists[1..], list);
      assert (lists + [list])[1..] == lists[1..] + [list];
    }
  }
}
