/**
 * What the build stages have in common. Where the SQL leaves the order of the selected rows
 * open (DISTINCT, joins), the order is a parameter: any duplicate-free listing of the selected
 * rows (`Enumerates`). The values of random() are parameters too (`Draw`).
 */
module Stages {
  import opened Wrappers
  import opened Upsert

  /** `order` lists every element of `s` exactly once. */
  ghost predicate Enumerates<T(!new)>(order: seq<T>, s: set<T>) {
    && (forall i, j :: 0 <= i < j < |order| ==> order[i] != order[j])
    && (forall x :: x in order <==> x in s)
  }

  lemma {:induction false} DistinctCard<T>(order: seq<T>)
    requires forall i, j :: 0 <= i < j < |order| ==> order[i] != order[j]
    ensures |set x | x in order| == |order|
  {
    if order != [] {
      var rest := order[1..];
      DistinctCard(rest);
      assert (set x | x in order) == {order[0]} + (set x | x in rest);
      assert order[0] !in (set x | x in rest);
    }
  }

  /** A listing without repetitions has as many entries as the set it lists. */
  lemma EnumerationLength<T(!new)>(order: seq<T>, s: set<T>)
    requires Enumerates(order, s)
    ensures |order| == |s|
  {
    DistinctCard(order);
    assert (set x | x in order) == s;
  }

  /** The keys of a listing are the keys of the set it lists. */
  lemma EnumeratedKeys<T(!new)>(order: seq<T>, s: set<T>, key: T -> string)
    requires Enumerates(order, s)
    ensures Keys(order, key) == set x | x in s :: key(x)
  {
    forall y | y in (set x | x in s :: key(x)) ensures y in Keys(order, key) {
      var x :| x in s && key(x) == y;
      var i :| 0 <= i < |order| && order[i] == x;
    }
  }

  lemma IdentityKeys(order: seq<string>, s: set<string>, key: string -> string)
    requires Enumerates(order, s)
    requires forall x :: key(x) == x
    ensures Keys(order, key) == s
  {
    EnumeratedKeys(order, s, key);
  }

  /** A value that is neither NULL nor the empty string. */
  predicate Present(v: Option<string>) {
    v.Some? && v.value != ""
  }

  /** One value of random(), which lies in [0, 1). */
  type Draw = u: real | 0.0 <= u < 1.0
}
