/**
 Inserting into and removing from sequences, alone and within longer ones; members of sets.
 */
module Sequences {

  function Insert<T>(s: seq<T>, i: nat, x: T): seq<T>
    requires i <= |s|
  {
    s[..i] + [x] + s[i..]
  }

  function Remove<T>(s: seq<T>, i: nat): seq<T>
    requires i < |s|
  {
    s[..i] + s[i + 1..]
  }

  lemma {:induction false} Associate<T>(x: seq<T>, y: seq<T>, b: seq<T>)
    ensures (x + y) + b == x + (y + b)
  {
  }

  lemma {:induction false} MiddleAt<T>(a: seq<T>, m: seq<T>, b: seq<T>, i: nat)
    requires i < |m|
    ensures (a + m + b)[|a| + i] == m[i]
  {
  }

  lemma {:induction false} SetMiddle<T>(a: seq<T>, m: seq<T>, b: seq<T>, i: nat, e: T)
    requires i < |m|
    ensures a + m[i := e] + b == (a + m + b)[|a| + i := e]
  {
  }

  lemma {:induction false} InsertMiddle<T>(a: seq<T>, m: seq<T>, b: seq<T>, i: nat, e: T)
    requires i <= |m|
    ensures a + Insert(m, i, e) + b == Insert(a + m + b, |a| + i, e)
  {
    assert (a + m + b)[..|a| + i] == a + m[..i];
    assert (a + m + b)[|a| + i..] == m[i..] + b;
  }

  lemma {:induction false} RemoveMiddle<T>(a: seq<T>, m: seq<T>, b: seq<T>, i: nat)
    requires i < |m|
    ensures a + Remove(m, i) + b == Remove(a + m + b, |a| + i)
  {
    assert (a + m + b)[..|a| + i] == a + m[..i];
    assert (a + m + b)[|a| + i + 1..] == m[i + 1..] + b;
  }

  ghost predicate Distinct(s: seq<int>) {
    forall i, j :: 0 <= i < j < |s| ==> s[i] != s[j]
  }

  /** A set that is not empty has a member. */
  lemma {:induction false} SomeMember<T>(s: set<T>) returns (x: T)
    requires s != {}
    ensures x in s
  {
    x :| x in s;
  }
}
