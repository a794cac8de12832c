/** Small facts about sequences shared by the other modules. */
module Sequences {

  lemma Assoc<T>(a: seq<T>, b: seq<T>, c: seq<T>)
    ensures (a + b) + c == a + (b + c)
  {}

  lemma Unit<T>(a: seq<T>)
    ensures a + [] == a && [] + a == a
  {}

  /** A concatenation cut where it was joined. */
  lemma CutJoin<T>(a: seq<T>, b: seq<T>)
    ensures (a + b)[..|a|] == a && (a + b)[|a|..] == b
    ensures a[..|a|] == a && a[|a|..] == []
  {}

  ghost predicate NoRepeats<T>(s: seq<T>) {
    forall i, j :: 0 <= i < j < |s| ==> s[i] != s[j]
  }

  ghost function Members<T>(s: seq<T>): set<T> {
    set x | x in s
  }
}
