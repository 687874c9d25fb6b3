/** Counting occurrences in sequences of ids, and the set a sequence holds. */
module Sequences {

  /** The elements a sequence holds, as a set. */
  ghost function Elements<T(!new)>(s: seq<T>): (r: set<T>)
    ensures forall x :: x in r <==> x in s
  {
    set x | x in s
  }

  /** How many times `x` occurs in `s`. */
  ghost function Occurrences(s: seq<nat>, x: nat): nat
  {
    if s == [] then 0 else Occurrences(s[..|s| - 1], x) + (if s[|s| - 1] == x then 1 else 0)
  }

  lemma {:induction false} OccurrencesAppend(a: seq<nat>, b: seq<nat>, x: nat)
    ensures Occurrences(a + b, x) == Occurrences(a, x) + Occurrences(b, x)
  {
    if b != [] {
      assert (a + b)[..|a + b| - 1] == a + b[..|b| - 1];
      OccurrencesAppend(a, b[..|b| - 1], x);
    } else {
      assert a + b == a;
    }
  }

  lemma {:induction false} OccurrencesMembership(s: seq<nat>, x: nat)
    ensures x in s <==> Occurrences(s, x) > 0
  {
    if s != [] {
      OccurrencesMembership(s[..|s| - 1], x);
      assert s == s[..|s| - 1] + [s[|s| - 1]];
    }
  }

  /** In a sequence made only of `x`, `x` occurs once per position. */
  lemma {:induction false} UniformOccurrences(s: seq<nat>, x: nat)
    requires forall i :: 0 <= i < |s| ==> s[i] == x
    ensures Occurrences(s, x) == |s|
  {
    if s != [] {
      UniformOccurrences(s[..|s| - 1], x);
    }
  }
}
