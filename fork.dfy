/** A fork: one flag saying whether a philosopher holds it. */
module Forks {

  class Fork {
    var isUsed: bool

    /** A new fork is free: the Java field defaults to false. */
    constructor ()
      ensures !isUsed
    {
      isUsed := false;
    }

    /** take(): the synchronized wait loop exits only once the fork is free,
        so the step is enabled exactly when !isUsed; it then marks the fork held. */
    method Take()
      requires !isUsed
      modifies this
      ensures isUsed
    {
      isUsed := true;
    }

    /** putDown(): frees the fork whatever its prior state (so it is idempotent)
        and wakes every waiter. */
    method PutDown()
      modifies this
      ensures !isUsed
    {
      isUsed := false;
    }
  }

  /** The used flags of a list of forks, in order. */
  ghost function Flags(fs: seq<Fork>): (r: seq<bool>)
    reads fs
    ensures |r| == |fs|
  {
    seq(|fs|, k requires 0 <= k < |fs| reads fs => fs[k].isUsed)
  }

  /** No fork appears twice in the list. */
  ghost predicate Distinct(fs: seq<Fork>)
  {
    forall k, l :: 0 <= k < l < |fs| ==> fs[k] != fs[l]
  }

  lemma DistinctAt(fs: seq<Fork>, a: nat, b: nat)
    requires Distinct(fs) && a < |fs| && b < |fs| && a != b
    ensures fs[a] != fs[b]
  {
    if a > b {
      assert fs[b] != fs[a];
    }
  }
}
