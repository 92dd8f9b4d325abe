/** Facts about sequences and sets used by several models. */
module Sequences {

  /** Python's `list.reverse()`. */
  function Reverse<T>(s: seq<T>): (r: seq<T>)
    ensures |r| == |s|
    ensures forall i | 0 <= i < |s| :: r[i] == s[|s| - 1 - i]
  {
    if s == [] then [] else Reverse(s[1..]) + [s[0]]
  }

  lemma {:induction false} ReverseAppend<T>(s: seq<T>, x: T)
    ensures Reverse(s + [x]) == [x] + Reverse(s)
  {}

  predicate Distinct<T(==)>(s: seq<T>) {
    forall i, j | 0 <= i < j < |s| :: s[i] != s[j]
  }

  lemma ReverseFacts<T>(s: seq<T>)
    ensures Reverse(Reverse(s)) == s
    ensures Distinct(s) ==> Distinct(Reverse(s))
  {}

  /** A sequence without repetition is no longer than a set that holds its elements. */
  lemma {:induction false} DistinctFits<T>(s: seq<T>, elements: set<T>)
    requires Distinct(s) && forall i | 0 <= i < |s| :: s[i] in elements
    ensures |s| <= |elements|
  {
    if s != [] {
      var last := s[|s| - 1];
      DistinctFits(s[..|s| - 1], elements - {last});
    }
  }

  /** One step of visiting the elements of a set in any order. */
  lemma MoveElement<T>(done: set<T>, rest: set<T>, all: set<T>, x: T)
    requires done !! rest && done + rest == all && x in rest
    ensures done + {x} !! rest - {x} && (done + {x}) + (rest - {x}) == all
  {}
}
