/** The Philosopher class: its static eating-state vector and the locked steps
    that read and write it. */
module Philosophers {
  import opened Ring
  import opened Admission
  import opened Forks
  import opened Protocol

  /** The static part of Philosopher: the eatingStates array every philosopher
      shares. Its lock and condition are not modelled; every method here is one
      region run under that lock. */
  class AdmissionTable {
    var eatingStates: array<bool>

    /** Before the first philosopher is constructed the vector is empty. */
    constructor ()
      ensures eatingStates.Length == 0
    {
      eatingStates := new bool[0];
    }

    /** updateEatingStatesSize: allocate a vector of the new size, copy the common
        prefix into it (System.arraycopy), and install it. */
    method UpdateEatingStatesSize(newSize: nat)
      modifies this
      ensures fresh(eatingStates)
      ensures eatingStates[..] == Resized(old(eatingStates[..]), newSize)
    {
      var oldStates := eatingStates;
      var newEatingStates := new bool[newSize](_ => false);
      var common := if oldStates.Length < newSize then oldStates.Length else newSize;
      for i := 0 to common
        modifies newEatingStates
        invariant forall j :: 0 <= j < i ==> newEatingStates[j] == oldStates[j]
        invariant forall j :: i <= j < newSize ==> !newEatingStates[j]
      {
        newEatingStates[i] := oldStates[i];
      }
      eatingStates := newEatingStates;
    }
  }

  class Philosopher {
    const id: nat
    const leftFork: Fork
    const rightFork: Fork
    const table: AdmissionTable

    /** Records its seat and forks, and replaces the shared vector by a fresh one
        of philSize idle entries. */
    constructor (id: nat, leftFork: Fork, rightFork: Fork, table: AdmissionTable, philSize: nat)
      modifies table
      ensures this.id == id && this.leftFork == leftFork && this.rightFork == rightFork
      ensures this.table == table
      ensures fresh(table.eatingStates) && table.eatingStates[..] == seq(philSize, _ => false)
    {
      this.id := id;
      this.leftFork := leftFork;
      this.rightFork := rightFork;
      this.table := table;
      new;
      table.eatingStates := new bool[philSize](_ => false);
    }

    /** pickUpForks as one step under the global lock: waitForForks returns only
        once Admissible holds, each take only once its fork is free; the forks
        are taken in parity order (a fork that is both left and right is taken
        once), then the seat is marked eating. Returns the states announced to
        the manager, in order. */
    method PickUpForks() returns (announced: seq<string>)
      requires id < table.eatingStates.Length
      requires Admissible(table.eatingStates[..], id)
      requires !leftFork.isUsed && !rightFork.isUsed
      modifies leftFork, rightFork, table.eatingStates
      ensures leftFork.isUsed && rightFork.isUsed
      ensures table.eatingStates[..] == old(table.eatingStates[..])[id := true]
      ensures announced == if id % 2 == 0 then ["LIFTING_LEFT_FORK", "LIFTING_RIGHT_FORK"]
                           else ["LIFTING_RIGHT_FORK", "LIFTING_LEFT_FORK"]
    {
      var firstFork, secondFork, firstState, secondState;
      if id % 2 == 0 {
        firstFork, secondFork := leftFork, rightFork;
        firstState, secondState := "LIFTING_LEFT_FORK", "LIFTING_RIGHT_FORK";
      } else {
        firstFork, secondFork := rightFork, leftFork;
        firstState, secondState := "LIFTING_RIGHT_FORK", "LIFTING_LEFT_FORK";
      }
      firstFork.Take();
      if secondFork != firstFork {
        secondFork.Take();
      }
      table.eatingStates[id] := true;
      announced := [firstState, secondState];
    }

    /** putDownForks: puts down the left and then the right fork, clears the
        seat's entry and wakes every waiter. */
    method PutDownForks() returns (announced: seq<string>)
      requires id < table.eatingStates.Length
      modifies leftFork, rightFork, table.eatingStates
      ensures !leftFork.isUsed && !rightFork.isUsed
      ensures table.eatingStates[..] == old(table.eatingStates[..])[id := false]
      ensures announced == ["PUTTING_DOWN_LEFT_FORK", "PUTTING_DOWN_RIGHT_FORK"]
    {
      leftFork.PutDown();
      rightFork.PutDown();
      table.eatingStates[id] := false;
      announced := ["PUTTING_DOWN_LEFT_FORK", "PUTTING_DOWN_RIGHT_FORK"];
    }

    /** releaseForks: puts down the right and then the left fork and clears the
        seat's entry, announcing nothing. */
    method ReleaseForks()
      requires id < table.eatingStates.Length
      modifies leftFork, rightFork, table.eatingStates
      ensures !leftFork.isUsed && !rightFork.isUsed
      ensures table.eatingStates[..] == old(table.eatingStates[..])[id := false]
    {
      rightFork.PutDown();
      leftFork.PutDown();
      table.eatingStates[id] := false;
    }

    /** releaseForksIfEating, the interrupt path of run(): releases only when
        the seat is marked eating, and otherwise touches nothing. */
    method ReleaseForksIfEating()
      requires id < table.eatingStates.Length
      modifies leftFork, rightFork, table.eatingStates
      ensures old(table.eatingStates[id]) ==> !leftFork.isUsed && !rightFork.isUsed
      ensures !old(table.eatingStates[id]) ==>
              unchanged(leftFork, rightFork) && table.eatingStates[..] == old(table.eatingStates[..])
      ensures table.eatingStates[..] == old(table.eatingStates[..])[id := false]
    {
      if table.eatingStates[id] {
        ReleaseForks();
      }
    }
  }

  /** Philosopher p sits at seat p.id of a ring whose forks are `forks` (distinct
      objects), between fork p.id and fork Right(p.id, n), and the shared vector
      has one entry per seat. */
  ghost predicate Seated(p: Philosopher, forks: seq<Fork>)
    reads p.table
  {
    && p.id < |forks| && Distinct(forks) && p.table.eatingStates.Length == |forks|
    && p.leftFork == forks[p.id] && p.rightFork == forks[Right(p.id, |forks|)]
  }

  /** The ring's shared state as a value: the vector and the fork flags. */
  ghost function RingState(eating: array<bool>, forks: seq<Fork>): SharedState
    reads eating, forks
  {
    SharedState(eating[..], Flags(forks))
  }

  /** When a step changed only the forks at seats a and b, the fork flags changed
      at those two positions only. */
  lemma FlagsOfTwo(forks: seq<Fork>, before: seq<bool>, a: nat, b: nat, va: bool, vb: bool)
    requires |before| == |forks| && a < |forks| && b < |forks| && Distinct(forks)
    requires forks[a].isUsed == va && forks[b].isUsed == vb
    requires forall k :: 0 <= k < |forks| && forks[k] != forks[a] && forks[k] != forks[b] ==>
               forks[k].isUsed == before[k]
    ensures Flags(forks) == before[a := va][b := vb]
  {
    forall k | 0 <= k < |forks| ensures Flags(forks)[k] == before[a := va][b := vb][k] {
      if k != a && k != b {
        DistinctAt(forks, k, a);
        DistinctAt(forks, k, b);
      }
    }
  }

  /** Philosopher p's thread runs pickUpForks on a consistent ring: admission is
      all it waits for (its forks are then free), and the ring changes exactly as
      the value-level PickUp step says. */
  method PickUpOnRing(p: Philosopher, forks: seq<Fork>) returns (announced: seq<string>)
    requires Seated(p, forks)
    requires Consistent(RingState(p.table.eatingStates, forks))
    requires Admissible(p.table.eatingStates[..], p.id)
    modifies forks, p.table.eatingStates
    ensures PickUp(old(RingState(p.table.eatingStates, forks)), p.id)
            == Some(RingState(p.table.eatingStates, forks))
    ensures Consistent(RingState(p.table.eatingStates, forks))
  {
    var i, n := p.id, |forks|;
    ghost var before := RingState(p.table.eatingStates, forks);
    AdmittedFindsForksFree(before, i);
    PickUpEnabledIffAdmissible(before, i);
    PickUpEffect(before, i);
    PickUpKeepsConsistent(before, i);
    announced := p.PickUpForks();
    FlagsOfTwo(forks, before.forkUsed, i, Right(i, n), true, true);
  }

  /** Philosopher p's thread runs putDownForks after eating: the ring changes as
      the value-level PutDownForks step says and stays consistent. */
  method PutDownOnRing(p: Philosopher, forks: seq<Fork>) returns (announced: seq<string>)
    requires Seated(p, forks)
    requires Consistent(RingState(p.table.eatingStates, forks))
    requires p.table.eatingStates[p.id]
    modifies forks, p.table.eatingStates
    ensures RingState(p.table.eatingStates, forks)
            == PutDownForks(old(RingState(p.table.eatingStates, forks)), p.id)
    ensures Consistent(RingState(p.table.eatingStates, forks))
  {
    var i, n := p.id, |forks|;
    ghost var before := RingState(p.table.eatingStates, forks);
    PutDownKeepsConsistent(before, i);
    announced := p.PutDownForks();
    FlagsOfTwo(forks, before.forkUsed, i, Right(i, n), false, false);
  }

  /** Philosopher p's thread is interrupted and runs releaseForksIfEating: the
      ring changes as the value-level step says and stays consistent. */
  method InterruptOnRing(p: Philosopher, forks: seq<Fork>)
    requires Seated(p, forks)
    requires Consistent(RingState(p.table.eatingStates, forks))
    modifies forks, p.table.eatingStates
    ensures RingState(p.table.eatingStates, forks)
            == ReleaseForksIfEating(old(RingState(p.table.eatingStates, forks)), p.id)
    ensures Consistent(RingState(p.table.eatingStates, forks))
  {
    var i, n := p.id, |forks|;
    ghost var before := RingState(p.table.eatingStates, forks);
    ReleaseIfEatingKeepsConsistent(before, i);
    p.ReleaseForksIfEating();
    if before.eating[i] {
      FlagsOfTwo(forks, before.forkUsed, i, Right(i, n), false, false);
    } else {
      assert Flags(forks) == before.forkUsed;
    }
  }
}
