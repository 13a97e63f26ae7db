/** Sequences that stand for rings. */
module Sequences {

  ghost predicate Distinct<T>(c: seq<T>) {
    forall i, j :: 0 <= i < j < |c| ==> c[i] != c[j]
  }

  /** The place after i on a ring of n. */
  function Succ(n: nat, i: nat): nat {
    if i + 1 < n then i + 1 else 0
  }

  /** c with e put in after its first element, the head. */
  function WithFirst<T>(c: seq<T>, e: T): (r: seq<T>)
    requires |c| > 0
    ensures |r| == |c| + 1 && forall i :: 0 <= i < |r| ==> r[i] == if i == 0 then c[0] else if i == 1 then e else c[i - 1]
  {
    [c[0], e] + c[1..]
  }
}
