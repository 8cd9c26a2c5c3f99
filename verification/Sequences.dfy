/** An optional value. */
module Options {
  datatype Option<T> = None | Some(value: T)
}

/** Facts about sequences and finite sets shared by several components. */
module Sequences {

  ghost predicate NoDuplicates<T>(s: seq<T>) {
    forall i, j :: 0 <= i < j < |s| ==> s[i] != s[j]
  }

  function Without<T>(s: seq<T>, i: nat): seq<T>
    requires i < |s|
  {
    s[..i] + s[i + 1..]
  }

  lemma WithoutAt<T>(s: seq<T>, p: nat, i: nat)
    requires p < |s| && i < |s| - 1
    ensures Without(s, p)[i] == s[if i < p then i else i + 1]
  {
  }

  lemma WithoutAll<T>(s: seq<T>, p: nat)
    requires p < |s|
    ensures |Without(s, p)| == |s| - 1
    ensures forall i :: 0 <= i < |s| - 1 ==> Without(s, p)[i] == s[if i < p then i else i + 1]
  {
  }

  lemma FirstAgain<T>(s: seq<T>)
    requires s != []
    ensures [s[0]] + Without(s, 0) == s
  {
  }

  lemma WithoutLacks<T>(s: seq<T>, p: nat)
    requires p < |s| && forall i, j :: 0 <= i < j < |s| ==> s[i] != s[j]
    ensures s[p] !in Without(s, p) && forall x :: x in Without(s, p) ==> x in s
  {
  }

  /** The first position of x in s, or |s|. */
  function IndexOf<T(==)>(s: seq<T>, x: T): (i: nat)
    ensures i <= |s|
    ensures i < |s| ==> s[i] == x
    ensures forall j :: 0 <= j < i ==> s[j] != x
    ensures i < |s| <==> x in s
  {
    if s == [] then 0 else if s[0] == x then 0 else 1 + IndexOf(s[1..], x)
  }

  function Take<T>(s: seq<T>, n: nat): (t: seq<T>)
    ensures |t| == if |s| <= n then |s| else n
    ensures t <= s
  {
    if |s| <= n then s else s[..n]
  }

  lemma {:induction false} DistinctCount<T>(s: seq<T>)
    requires NoDuplicates(s)
    ensures |set x | x in s| == |s| && multiset(s) == multiset(set x | x in s)
  {
    if s == [] {
      assert (set x | x in s) == {};
    } else {
      var n := |s| - 1;
      DistinctCount(s[..n]);
      assert s == s[..n] + [s[n]];
      assert (set x | x in s) == (set x | x in s[..n]) + {s[n]};
    }
  }

  lemma SubsetSize<T>(a: set<T>, b: set<T>)
    requires a <= b
    ensures |a| <= |b|
    ensures |a| == |b| ==> a == b
  {
    assert b == a + (b - a);
  }

  lemma MovedKeepsDistinct<T>(s: seq<T>, i: nat)
    requires NoDuplicates(s) && i < |s|
    ensures NoDuplicates([s[i]] + Without(s, i))
    ensures forall x :: x in [s[i]] + Without(s, i) <==> x in s
  {
    var t := [s[i]] + Without(s, i);
    forall x | x in s
      ensures x in t
    {
      var j :| 0 <= j < |s| && s[j] == x;
      assert t[if j == i then 0 else if j < i then j + 1 else j] == x;
    }
  }
}
