/** Sequences of sequences, joined end to end. */
module Seqs {

  /** The elements of `ss[0]`, then those of `ss[1]`, and so on. */
  function Flatten<T>(ss: seq<seq<T>>): seq<T>
  {
    if ss == [] then [] else ss[0] + Flatten(ss[1..])
  }

  /** An element of any part is in the whole. */
  lemma {:induction false} InFlatten<T>(ss: seq<seq<T>>, r: nat, x: T)
    requires r < |ss| && x in ss[r]
    ensures x in Flatten(ss)
  {
    if r > 0 {
      InFlatten(ss[1..], r - 1, x);
    }
  }

  /** An element of the whole comes from some part. */
  lemma {:induction false} FlattenMembers<T>(ss: seq<seq<T>>, x: T)
    requires x in Flatten(ss)
    ensures exists r :: 0 <= r < |ss| && x in ss[r]
  {
    if x !in ss[0] {
      FlattenMembers(ss[1..], x);
      var r :| 0 <= r < |ss| - 1 && x in ss[1..][r];
      assert x in ss[r + 1];
    }
  }
}
