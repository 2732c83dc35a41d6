/** Bookkeeping for operating-system resources that an object owns one at a time. */
module Ledgers {
  import opened Structures

  /** Resources are numbered in the order of their creation. */
  datatype Ledger = Ledger(created: nat, deleted: seq<nat>)

  const FRESH := Ledger(0, [])

  function Create(l: Ledger): Ledger
  {
    l.(created := l.created + 1)
  }

  function Delete(l: Ledger, id: nat): Ledger
  {
    l.(deleted := l.deleted + [id])
  }

  /** Nothing was deleted twice or before its creation, and exactly the live resource is not deleted. */
  ghost predicate Balanced(l: Ledger, live: Option<nat>)
  {
    && (forall i, j | 0 <= i < j < |l.deleted| :: l.deleted[i] != l.deleted[j])
    && (forall id :: id in l.deleted <==> 0 <= id < l.created && live != Some(id))
    && (live.Some? ==> live.value < l.created)
  }

  lemma CreateBalanced(l: Ledger)
    requires Balanced(l, None)
    ensures Balanced(Create(l), Some(l.created))
  {
  }

  lemma DeleteBalanced(l: Ledger, id: nat)
    requires Balanced(l, Some(id))
    ensures Balanced(Delete(l, id), None)
  {
    var d := Delete(l, id).deleted;
    forall x ensures x in d <==> x in l.deleted || x == id {
      assert d[|l.deleted|] == id;
    }
  }

  lemma HasElement(s: seq<nat>)
    ensures s != [] ==> exists id :: id in s
  {
    if s != [] {
      assert s[0] in s;
    }
  }

  /** Taking an element out of a sequence without repetitions. */
  lemma WithoutElement(s: seq<nat>, k: nat) returns (t: seq<nat>)
    requires k < |s| && forall i, j | 0 <= i < j < |s| :: s[i] != s[j]
    ensures |t| == |s| - 1
    ensures forall i, j | 0 <= i < j < |t| :: t[i] != t[j]
    ensures forall id :: id in t <==> id in s && id != s[k]
  {
    t := s[..k] + s[k + 1..];
    assert s == s[..k] + [s[k]] + s[k + 1..];
  }

  lemma {:induction false} DistinctBelow(s: seq<nat>, n: nat)
    requires forall i, j | 0 <= i < j < |s| :: s[i] != s[j]
    requires forall id :: id in s <==> 0 <= id < n
    ensures |s| == n
    decreases n
  {
    if n == 0 {
      HasElement(s);
    } else {
      assert n - 1 in s;
      var k :| 0 <= k < |s| && s[k] == n - 1;
      var t := WithoutElement(s, k);
      DistinctBelow(t, n - 1);
    }
  }

  /** Created minus deleted is one while a resource is live, and zero otherwise. */
  lemma BalanceCount(l: Ledger, live: Option<nat>)
    requires Balanced(l, live)
    ensures l.created - |l.deleted| == if live.Some? then 1 else 0
  {
    if live.Some? {
      var d := Delete(l, live.value);
      DeleteBalanced(l, live.value);
      DistinctBelow(d.deleted, l.created);
    } else {
      DistinctBelow(l.deleted, l.created);
    }
  }
}
