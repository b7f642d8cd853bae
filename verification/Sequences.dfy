/** Sequences without repetition, and the elements of a sequence. */
module Sequences {
  ghost predicate NoDuplicates<T>(c: seq<T>) {
    forall i, j :: 0 <= i < j < |c| ==> c[i] != c[j]
  }

  ghost function Elements<T>(c: seq<T>): set<T> {
    set x | x in c
  }
}
