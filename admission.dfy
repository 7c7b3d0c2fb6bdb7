/** The admission gate over the eating-state vector: one flag per seat, true
    while that philosopher is in its eat phase. */
module Admission {
  import opened Ring

  /** waitForForks: the await loop runs while the seat itself, its right
      neighbour or its left neighbour is marked eating; admission is the
      negation of that loop guard. */
  predicate Admissible(s: seq<bool>, id: nat)
    requires id < |s|
  {
    !s[id] && !s[Right(id, |s|)] && !s[Left(id, |s|)]
  }

  /** Admission holds exactly when no seat in the closed neighbourhood of id
      (id itself and every seat touching it) is marked eating. */
  lemma AdmissibleIffNeighbourhoodIdle(s: seq<bool>, id: nat)
    requires id < |s|
    ensures Admissible(s, id) <==>
            forall j :: 0 <= j < |s| && (j == id || Neighbours(id, j, |s|)) ==> !s[j]
  {
    var n := |s|;
    if Admissible(s, id) {
      forall j | 0 <= j < n && (j == id || Neighbours(id, j, n)) ensures !s[j] {
        NeighboursAreLeftAndRight(id, j, n);
      }
    } else {
      NeighboursAreLeftAndRight(id, Right(id, n), n);
      NeighboursAreLeftAndRight(id, Left(id, n), n);
    }
  }

  /** The headline invariant: no two distinct ring-adjacent seats are both
      marked eating. (With one seat its right neighbour is itself, and that
      pair is not a pair of philosophers.) */
  ghost predicate NoAdjacentEating(s: seq<bool>)
  {
    forall i :: 0 <= i < |s| && Right(i, |s|) != i ==> !(s[i] && s[Right(i, |s|)])
  }

  /** The invariant read pairwise: for any two distinct neighbours, at most one eats. */
  lemma NoAdjacentEatingPairwise(s: seq<bool>, i: nat, j: nat)
    requires NoAdjacentEating(s)
    requires i < |s| && j < |s| && i != j && Neighbours(i, j, |s|)
    ensures !(s[i] && s[j])
  {
    if j != Right(i, |s|) {
      assert Right(j, |s|) == i;
    }
  }

  /** pickUpForks ends with eatingStates[id] = true; when admission held and the
      invariant held before, it still holds afterwards. */
  lemma PickUpKeepsNoAdjacentEating(s: seq<bool>, id: nat)
    requires id < |s| && NoAdjacentEating(s) && Admissible(s, id)
    ensures NoAdjacentEating(s[id := true])
  {
    var n := |s|;
    var t := s[id := true];
    forall i | 0 <= i < n && Right(i, n) != i
      ensures !(t[i] && t[Right(i, n)])
    {
      if Right(i, n) == id {
        LeftRightInverse(i, n);
        assert i == Left(id, n);
      }
    }
  }

  /** putDownForks and releaseForks end with eatingStates[id] = false, which
      never breaks the invariant. */
  lemma ClearKeepsNoAdjacentEating(s: seq<bool>, id: nat)
    requires id < |s| && NoAdjacentEating(s)
    ensures NoAdjacentEating(s[id := false])
  {
  }

  /** A vector with no seat eating satisfies the invariant. */
  lemma IdleHasNoAdjacentEating(n: nat)
    ensures NoAdjacentEating(seq(n, _ => false))
  {
  }

  /** updateEatingStatesSize(k): a new vector of length k holding the old
      entries below min(|s|, k) and false everywhere else. */
  function Resized(s: seq<bool>, k: nat): (r: seq<bool>)
    ensures |r| == k
    ensures forall i :: 0 <= i < k && i < |s| ==> r[i] == s[i]
    ensures forall i :: |s| <= i < k ==> !r[i]
  {
    if k <= |s| then s[..k] else s + seq(k - |s|, _ => false)
  }

  /** Growing the vector keeps the invariant: the new seats are idle, and the
      old last seat now touches a new idle seat instead of seat 0. */
  lemma GrowKeepsNoAdjacentEating(s: seq<bool>, k: nat)
    requires |s| <= k && NoAdjacentEating(s)
    ensures NoAdjacentEating(Resized(s, k))
  {
    var r := Resized(s, k);
    forall i | 0 <= i < k && Right(i, k) != i
      ensures !(r[i] && r[Right(i, k)])
    {
      if i + 1 < |s| {
        assert Right(i, k) == Right(i, |s|);
      }
    }
  }

  /** Shrinking the vector while seats are eating can break the invariant: seats
      0 and 3 of a five-seat ring are not neighbours, but they are in a ring of
      four. This is why a resize needs every philosopher quiesced first. */
  lemma ShrinkCanBreakNoAdjacentEating()
    ensures NoAdjacentEating([true, false, false, true, false])
    ensures !NoAdjacentEating(Resized([true, false, false, true, false], 4))
  {
    var s := [true, false, false, true, false];
    var r := Resized(s, 4);
    assert r == [true, false, false, true];
    assert Right(3, 4) == 0;
    assert r[3] && r[Right(3, 4)];
  }
}
