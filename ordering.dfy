/** Table scans. A query without ORDER BY returns its rows in key order, and
    `.first()` is the row with the smallest key; both are stated here over a
    set of keys and the table's key bound. */
module Ordering {
  import opened Domain

  ghost predicate Increasing(s: seq<Id>) {
    forall i, j :: 0 <= i < j < |s| ==> s[i] < s[j]
  }

  /** The keys of `ks` below `n`, in ascending order. */
  function Ascending(ks: set<Id>, n: nat): (r: seq<Id>)
    ensures forall i :: 0 <= i < |r| ==> r[i] in ks && 0 <= r[i] < n
    ensures forall x :: x in ks && 0 <= x < n ==> x in r
    ensures Increasing(r)
  {
    if n == 0 then []
    else Ascending(ks, n - 1) + (if n - 1 in ks then [n - 1] else [])
  }

  /** The smallest key of `ks` below `n`, if there is one. */
  function First(ks: set<Id>, n: nat): (r: Option<Id>)
    decreases n
    ensures r.None? <==> forall x :: x in ks ==> !(0 <= x < n)
    ensures r.Some? ==> r.value in ks && 0 <= r.value < n
    ensures r.Some? ==> forall x :: x in ks && 0 <= x < n ==> r.value <= x
  {
    if n == 0 then None
    else
      match First(ks, n - 1)
      case Some(k) => Some(k)
      case None => if n - 1 in ks then Some(n - 1) else None
  }

  /** The smallest key does not depend on the bound once the bound is past
      every key. */
  lemma FirstStable(ks: set<Id>, n: nat, m: nat)
    requires forall x :: x in ks ==> x < n
    requires n <= m
    ensures First(ks, m) == First(ks, n)
  {
    var a, b := First(ks, m), First(ks, n);
    if a.Some? && b.Some? {
      assert a.value <= b.value && b.value <= a.value;
    }
  }

  /** The keys of `ks` below `n`, as a set. */
  function Below(ks: set<Id>, n: nat): (r: set<Id>)
    ensures r <= ks
  {
    set x | x in ks && 0 <= x < n
  }

  lemma BelowStep(ks: set<Id>, n: nat)
    requires n > 0
    ensures n - 1 in ks ==> |Below(ks, n)| == |Below(ks, n - 1)| + 1
    ensures n - 1 !in ks ==> Below(ks, n) == Below(ks, n - 1)
  {
    if n - 1 in ks {
      assert Below(ks, n) == Below(ks, n - 1) + {n - 1};
    } else {
      assert Below(ks, n) == Below(ks, n - 1);
    }
  }

  /** A key set all of whose keys are below the bound is its own restriction. */
  lemma BelowAll(ks: set<Id>, n: nat)
    requires forall x :: x in ks ==> 0 <= x < n
    ensures Below(ks, n) == ks
  {
  }

  /** Some key of a non-empty set. */
  lemma Elemento(ks: set<Id>) returns (k: Id)
    requires ks != {}
    ensures k in ks
  {
    if forall x :: x !in ks {
      assert false;
    }
    k :| k in ks;
  }

  /** When every key is below the bound, there is no first key exactly
      when the set is empty. */
  lemma FirstVazio(ks: set<Id>, n: nat)
    ensures (forall x :: x in ks ==> 0 <= x < n) ==> (First(ks, n).None? <==> ks == {})
  {
    if ks != {} {
      var k := Elemento(ks);
    }
  }

  /** The first key of a set whose only key below the bound is `k`. */
  lemma FirstOfSingleton(ks: set<Id>, k: Id, n: nat)
    requires 0 <= k < n
    requires forall x :: x in ks && 0 <= x < n <==> x == k
    ensures First(ks, n) == Some(k)
  {
    assert k in ks;
  }
}
