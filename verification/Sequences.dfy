/** Sequence operations that several modules use. */
module Sequences {
  import opened Basics

  predicate Distinct<T(==)>(list: seq<T>) {
    forall i, j :: 0 <= i < j < |list| ==> list[i] != list[j]
  }

  function Without(list: seq<nat>, a: nat): (r: seq<nat>)
    ensures forall x :: x in r <==> x in list && x != a
    ensures |r| <= |list|
  {
    if list == [] then []
    else if list[0] == a then Without(list[1..], a)
    else [list[0]] + Without(list[1..], a)
  }

  lemma {:induction false} WithoutDistinct(list: seq<nat>, a: nat)
    requires Distinct(list)
    ensures Distinct(Without(list, a))
  {
    if list != [] {
      WithoutDistinct(list[1..], a);
      var rest := Without(list[1..], a);
      assert list[0] !in rest;
      assert Distinct([list[0]] + rest);
    }
  }

  lemma {:induction false} WithoutAbsent(list: seq<nat>, a: nat)
    requires a !in list
    ensures Without(list, a) == list
  {
    if list != [] {
      WithoutAbsent(list[1..], a);
    }
  }

  function Reversed<T>(s: seq<T>): (r: seq<T>)
    ensures |r| == |s|
  {
    if s == [] then [] else Reversed(s[1..]) + [s[0]]
  }

  lemma {:induction false} ReversedSnoc<T>(s: seq<T>, x: T)
    ensures Reversed(s + [x]) == [x] + Reversed(s)
  {
    if s == [] {
      assert [] + [x] == [x];
    } else {
      assert (s + [x])[1..] == s[1..] + [x];
      ReversedSnoc(s[1..], x);
    }
  }

  lemma UpdateLast<T>(s: seq<T>, x: T, y: T)
    ensures (s + [x])[|s| := y] == s + [y]
  {}

  lemma UpdateFront<T>(a: seq<T>, b: seq<T>, i: nat, x: T)
    requires i < |a|
    ensures (a + b)[i := x] == a[i := x] + b
  {}

  /** The first empty slot of a table from `from` on. */
  function FirstFree<T>(t: seq<Option<T>>, from: nat): (r: Option<nat>)
    ensures r.Some? ==> from <= r.value < |t| && t[r.value].None?
    ensures forall i :: from <= i < (if r.Some? then r.value else |t|) ==> t[i].Some?
    decreases |t| - from
  {
    if from >= |t| then None else if t[from].None? then Some(from) else FirstFree(t, from + 1)
  }
}
