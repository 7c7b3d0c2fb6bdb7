/** Index arithmetic on the ring of seats: philosopher i sits between fork i
    (its left fork) and fork Right(i, n) (its right fork), and its neighbours
    are the philosophers at Right(i, n) and Left(i, n). */
module Ring {

  /** The right neighbour of seat i, written (i + 1) % n in the source. */
  function Right(i: nat, n: nat): (r: nat)
    requires i < n
    ensures r < n
    ensures r == if i + 1 == n then 0 else i + 1
  {
    (i + 1) % n
  }

  /** The left neighbour of seat i, written (i - 1 + n) % n in the source.
      The operand is never negative, so Java's truncating % and Dafny's
      Euclidean % agree on it. */
  function Left(i: nat, n: nat): (r: nat)
    requires i < n
    ensures r < n
    ensures r == if i == 0 then n - 1 else i - 1
  {
    (i - 1 + n) % n
  }

  /** Going one seat right and one seat left (in either order) is the identity. */
  lemma LeftRightInverse(i: nat, n: nat)
    requires i < n
    ensures Left(Right(i, n), n) == i
    ensures Right(Left(i, n), n) == i
  {
  }

  /** Seats i and j touch: one is the right neighbour of the other. */
  predicate Neighbours(i: nat, j: nat, n: nat)
    requires i < n && j < n
  {
    j == Right(i, n) || i == Right(j, n)
  }

  /** The neighbours of seat i are exactly its left and its right seat. */
  lemma NeighboursAreLeftAndRight(i: nat, j: nat, n: nat)
    requires i < n && j < n
    ensures Neighbours(i, j, n) <==> (j == Right(i, n) || j == Left(i, n))
  {
    if i == Right(j, n) {
      LeftRightInverse(j, n);
    }
    if j == Left(i, n) {
      LeftRightInverse(i, n);
    }
  }
}
