/** Positions and repeats in a sequence. */
module Sequences {
  ghost predicate NoRepeats<T(!new)>(s: seq<T>) {
    forall i, j :: 0 <= i < j < |s| ==> s[i] != s[j]
  }

  /** A position where an element stands. */
  ghost function IndexOf<T>(s: seq<T>, x: T): (i: nat)
    requires x in s
    ensures i < |s| && s[i] == x
  {
    var i :| 0 <= i < |s| && s[i] == x;
    i
  }

  function Take<T>(s: seq<T>, n: nat): (t: seq<T>)
    ensures t <= s && |t| == if n <= |s| then n else |s|
  {
    if n <= |s| then s[..n] else s
  }
}
