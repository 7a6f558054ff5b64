/**
 * The few JavaScript array built-ins the core relies on (`includes`, `indexOf`, `splice(i, 1)`),
 * stated once over Dafny sequences, with the facts about them that the other modules use.
 */
module Sequences {

  /** No element occurs twice. */
  ghost predicate Distinct<T>(s: seq<T>) {
    forall i, j :: 0 <= i < j < |s| ==> s[i] != s[j]
  }

  /** A duplicate-free sequence has as many elements as the set of its elements. */
  lemma {:induction false} DistinctCard<T>(s: seq<T>)
    requires Distinct(s)
    ensures |set x | x in s| == |s|
  {
    if s != [] {
      var t := s[1..];
      assert Distinct(t);
      DistinctCard(t);
      assert s[0] !in t;
      assert (set x | x in s) == (set x | x in t) + {s[0]};
    }
  }

  /** `s.indexOf(x)`: the first index holding `x`, or -1. */
  function IndexOf<T(==)>(s: seq<T>, x: T): (r: int)
    ensures -1 <= r < |s|
    ensures r == -1 <==> x !in s
    ensures 0 <= r ==> s[r] == x && forall i :: 0 <= i < r ==> s[i] != x
  {
    if |s| == 0 then -1
    else if s[0] == x then 0
    else
      var r := IndexOf(s[1..], x);
      if r == -1 then -1 else r + 1
  }

  /** `s.splice(i, 1)` on a copy: the sequence without its element at `i`. */
  function RemoveAt<T>(s: seq<T>, i: nat): (r: seq<T>)
    requires i < |s|
    ensures |r| == |s| - 1
    ensures forall j :: 0 <= j < i ==> r[j] == s[j]
    ensures forall j :: i <= j < |r| ==> r[j] == s[j + 1]
  {
    s[..i] + s[i + 1..]
  }

  /** Removing one position of a duplicate-free sequence removes exactly that element. */
  lemma RemoveAtDistinct<T>(s: seq<T>, i: nat)
    requires i < |s| && Distinct(s)
    ensures Distinct(RemoveAt(s, i))
    ensures forall x :: x in RemoveAt(s, i) <==> x in s && x != s[i]
  {
    var r := RemoveAt(s, i);
    forall x | x in s && x != s[i] ensures x in r {
      var k :| 0 <= k < |s| && s[k] == x;
      if k < i { assert r[k] == x; } else { assert r[k - 1] == x; }
    }
  }

  /** Appending an element that is absent keeps a sequence duplicate-free. */
  lemma AppendDistinct<T>(s: seq<T>, x: T)
    requires Distinct(s) && x !in s
    ensures Distinct(s + [x])
  {
  }

  /** An element appended to a sequence that lacks it is found last, and removing it there undoes the append. */
  lemma RemoveAppended<T>(s: seq<T>, x: T)
    requires x !in s
    ensures IndexOf(s + [x], x) == |s|
    ensures RemoveAt(s + [x], |s|) == s
  {
    assert (s + [x])[..|s|] == s;
  }

  /**
   * `s.splice(s.indexOf(x), 1)` for an `x` that occurs: the sequence without the first
   * occurrence of `x`; in a duplicate-free sequence that removes `x` and nothing else.
   */
  function RemoveFirst<T(==)>(s: seq<T>, x: T): (r: seq<T>)
    requires x in s
    ensures |r| == |s| - 1
    ensures Distinct(s) ==> Distinct(r) && x !in r
    ensures Distinct(s) ==> (forall y | y in r :: y in s) && (forall y | y in s && y != x :: y in r)
  {
    RemoveFirstOfDistinct(s, x);
    RemoveAt(s, IndexOf(s, x))
  }

  lemma RemoveFirstOfDistinct<T>(s: seq<T>, x: T)
    requires x in s
    ensures Distinct(s) ==> Distinct(RemoveAt(s, IndexOf(s, x))) && x !in RemoveAt(s, IndexOf(s, x))
    ensures Distinct(s) ==> forall y :: y in RemoveAt(s, IndexOf(s, x)) <==> y in s && y != x
  {
    if Distinct(s) {
      RemoveAtDistinct(s, IndexOf(s, x));
    }
  }
}
