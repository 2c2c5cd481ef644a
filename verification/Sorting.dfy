/** Sorted listings of a set of numbers: segment ids of a directory scan, hashes of a ring. */
module Sorting {

  predicate Ascending(s: seq<nat>) {
    forall i, j | 0 <= i < j < |s| :: s[i] < s[j]
  }

  /** The list holds exactly the members of the set, in ascending order. */
  predicate Sorts(s: seq<nat>, members: set<nat>) {
    Ascending(s) && (forall i | 0 <= i < |s| :: s[i] in members) && (forall x <- members :: x in s)
  }

  /** There is only one such list. */
  lemma {:induction false} SortsUniquely(a: seq<nat>, b: seq<nat>, members: set<nat>)
    requires Sorts(a, members) && Sorts(b, members)
    ensures a == b
    decreases |a|
  {
    FirstIsMember(a, members);
    FirstIsMember(b, members);
    if members != {} {
      LastIsLargest(a, members);
      LastIsLargest(b, members);
      var n, m := |a| - 1, |b| - 1;
      DropLast(a, members);
      DropLast(b, members);
      SortsUniquely(a[..n], b[..m], members - {b[m]});
      assert a == a[..n] + [a[n]] && b == b[..m] + [b[m]];
    }
  }

  lemma FirstIsMember(s: seq<nat>, members: set<nat>)
    requires Sorts(s, members)
    ensures s != [] ==> members != {}
  {
    if s != [] { assert s[0] in members; }
  }

  lemma LastIsLargest(s: seq<nat>, members: set<nat>)
    requires Sorts(s, members) && members != {}
    ensures s != [] && s[|s| - 1] in members && forall x <- members :: x <= s[|s| - 1]
  {
    var x :| x in members;
    assert x in s;
  }

  lemma DropLast(s: seq<nat>, members: set<nat>)
    requires Sorts(s, members) && s != []
    ensures Sorts(s[..|s| - 1], members - {s[|s| - 1]})
  {
    var n := |s| - 1;
    forall x | x in members - {s[n]} ensures x in s[..n] { assert x in s; }
  }

  lemma AddLast(s: seq<nat>, members: set<nat>, x: nat)
    requires Sorts(s, members) && forall y <- members :: y < x
    ensures Sorts(s + [x], members + {x})
  {
    assert forall i | 0 <= i < |s| :: s[i] in members;
  }

  method Smallest(members: set<nat>) returns (x: nat)
    requires members != {}
    ensures x in members && forall y <- members :: x <= y
  {
    var y :| y in members;
    x := y;
    var rest := members;
    while rest != {}
      invariant rest <= members && x in members
      invariant forall y <- members :: y in rest || x <= y
    {
      var y :| y in rest;
      if y < x { x := y; }
      rest := rest - {y};
    }
  }

  /** sort.Slice on the listed members. */
  method SortedList(members: set<nat>) returns (s: seq<nat>)
    ensures Sorts(s, members)
  {
    s := [];
    var rest := members;
    ghost var done: set<nat> := {};
    while rest != {}
      invariant done !! rest && done + rest == members
      invariant Sorts(s, done)
      invariant forall a <- done, b <- rest :: a < b
    {
      var x := Smallest(rest);
      AddLast(s, done, x);
      s := s + [x];
      rest, done := rest - {x}, done + {x};
    }
    assert done == members;
  }
}
