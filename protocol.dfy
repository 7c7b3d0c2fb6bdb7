/** The ring as a value: the eating-state vector next to the used flags of the
    forks, and the atomic steps a philosopher's thread takes on them. Each
    locked region of the source is one step; each wait loop is the condition
    under which its step is enabled (None when it is not). */
module Protocol {
  import opened Ring
  import opened Admission

  datatype Option<T> = None | Some(value: T)

  /** Fork.take on fork k: enabled only while the fork is free. */
  function TakeFork(used: seq<bool>, k: nat): (r: Option<seq<bool>>)
    requires k < |used|
    ensures r.Some? <==> !used[k]
    ensures r.Some? ==> |r.value| == |used| && r.value[k]
    ensures r.Some? ==> forall j :: 0 <= j < |used| && j != k ==> r.value[j] == used[j]
  {
    if used[k] then None else Some(used[k := true])
  }

  /** Fork.putDown on fork k: always enabled. */
  function PutDownFork(used: seq<bool>, k: nat): (r: seq<bool>)
    requires k < |used|
    ensures |r| == |used| && !r[k]
    ensures forall j :: 0 <= j < |used| && j != k ==> r[j] == used[j]
  {
    used[k := false]
  }

  /** Taking a free fork and putting it down gives back the fork list unchanged. */
  lemma TakeThenPutDownRestores(used: seq<bool>, k: nat)
    requires k < |used| && !used[k]
    ensures TakeFork(used, k).Some?
    ensures PutDownFork(TakeFork(used, k).value, k) == used
  {
  }

  /** Putting a fork down twice is putting it down once. */
  lemma PutDownIdempotent(used: seq<bool>, k: nat)
    requires k < |used|
    ensures PutDownFork(PutDownFork(used, k), k) == PutDownFork(used, k)
    ensures !PutDownFork(used, k)[k]
  {
  }

  /** takeForks as written: firstFork.take() and then secondFork.take(), with no
      check that the two are different forks. */
  function TakeForksAsWritten(used: seq<bool>, first: nat, second: nat): (r: Option<seq<bool>>)
    requires first < |used| && second < |used|
    ensures r.Some? <==> !used[first] && !used[second] && first != second
    ensures r.Some? ==> r.value == used[first := true][second := true]
  {
    match TakeFork(used, first)
    case None => None
    case Some(u) => TakeFork(u, second)
  }

  /** With a single seat the philosopher's left and right fork are fork 0, and
      the second take waits on the fork its own thread has just taken (while
      holding the global lock, so nobody can put it down): pick-up never
      completes, whatever the fork's state. */
  lemma SingleSeatTakeForksBlocks(used: seq<bool>)
    requires |used| == 1
    ensures TakeForksAsWritten(used, 0, Right(0, 1)) == None
  {
  }

  /** takeForks corrected: a fork that is both the first and the second is taken
      once. Enabled exactly when both forks are free; afterwards both are held
      and no other fork changed. */
  function TakeForks(used: seq<bool>, first: nat, second: nat): (r: Option<seq<bool>>)
    requires first < |used| && second < |used|
    ensures r.Some? <==> !used[first] && !used[second]
    ensures r.Some? ==> r.value == used[first := true][second := true]
  {
    match TakeFork(used, first)
    case None => None
    case Some(u) => if second == first then Some(u) else TakeFork(u, second)
  }

  /** The correction changes nothing when the two forks differ. */
  lemma TakeForksAgreesOnDistinctForks(used: seq<bool>, first: nat, second: nat)
    requires first < |used| && second < |used| && first != second
    ensures TakeForks(used, first, second) == TakeForksAsWritten(used, first, second)
  {
  }

  /** The order of the two takes does not matter to the outcome: taking the
      forks either way round is enabled in the same states and ends in the
      same state, so safety never rests on the parity rule below. */
  lemma TakeForksOrderIrrelevant(used: seq<bool>, first: nat, second: nat)
    requires first < |used| && second < |used|
    ensures TakeForks(used, first, second) == TakeForks(used, second, first)
  {
    if first != second && !used[first] && !used[second] {
      assert used[first := true][second := true] == used[second := true][first := true];
    }
  }

  /** The order of the two takes in pickUpForks: an even id takes its left fork
      (fork id) first, an odd id takes its right fork (fork Right(id, n)) first. */
  function TakeOrder(id: nat, n: nat): (order: (nat, nat))
    requires id < n
    ensures {order.0, order.1} == {id, Right(id, n)}
    ensures order.0 == id <==> (id % 2 == 0 || Right(id, n) == id)
  {
    if id % 2 == 0 then (id, Right(id, n)) else (Right(id, n), id)
  }

  /** The shared state of a ring of n seats: the eatingStates vector and the
      used flag of every fork. Philosopher i holds forks i and Right(i, n). */
  datatype SharedState = SharedState(eating: seq<bool>, forkUsed: seq<bool>)

  predicate WellFormed(t: SharedState)
  {
    |t.eating| >= 1 && |t.forkUsed| == |t.eating|
  }

  /** Fork k is the left fork of philosopher k and the right fork of philosopher
      Left(k, n); it is in use exactly when one of the two is eating. */
  ghost predicate ForksMatchEating(t: SharedState)
    requires WellFormed(t)
  {
    forall k :: 0 <= k < |t.forkUsed| ==>
      t.forkUsed[k] == (t.eating[k] || t.eating[Left(k, |t.eating|)])
  }

  /** The invariant of the ring between atomic steps. */
  ghost predicate Consistent(t: SharedState)
  {
    WellFormed(t) && NoAdjacentEating(t.eating) && ForksMatchEating(t)
  }

  /** The ring right after initializePhilosophers(n): nobody eats, every fork is free. */
  function Idle(n: nat): (t: SharedState)
    requires n >= 1
    ensures WellFormed(t) && |t.eating| == n
    ensures forall k :: 0 <= k < n ==> !t.eating[k] && !t.forkUsed[k]
  {
    SharedState(seq(n, _ => false), seq(n, _ => false))
  }

  lemma IdleIsConsistent(n: nat)
    requires n >= 1
    ensures Consistent(Idle(n))
  {
    IdleHasNoAdjacentEating(n);
  }

  /** An eating philosopher holds both its forks. */
  lemma EatingHoldsBothForks(t: SharedState, id: nat)
    requires Consistent(t) && id < |t.eating| && t.eating[id]
    ensures t.forkUsed[id] && t.forkUsed[Right(id, |t.eating|)]
  {
    LeftRightInverse(id, |t.eating|);
  }

  /** Mutual exclusion on forks: a used fork is held by one of its two
      philosophers, and never by both when they are two different seats. */
  lemma ForkHeldByOne(t: SharedState, k: nat)
    requires Consistent(t) && k < |t.forkUsed|
    ensures t.forkUsed[k] ==> t.eating[k] || t.eating[Left(k, |t.eating|)]
    ensures k != Left(k, |t.eating|) ==> !(t.eating[k] && t.eating[Left(k, |t.eating|)])
  {
    var n := |t.eating|;
    LeftRightInverse(k, n);
    assert Right(Left(k, n), n) == k;
  }

  /** pickUpForks as one atomic step: waitForForks, then takeForks in the
      parity order, then eatingStates[id] = true. */
  function PickUp(t: SharedState, id: nat): (r: Option<SharedState>)
    requires WellFormed(t) && id < |t.eating|
    ensures r.Some? <==> Admissible(t.eating, id) && !t.forkUsed[id] && !t.forkUsed[Right(id, |t.eating|)]
    ensures r.Some? ==> WellFormed(r.value) && r.value.eating == t.eating[id := true]
    ensures r.Some? ==> r.value.forkUsed[id] && r.value.forkUsed[Right(id, |t.eating|)]
  {
    var n := |t.eating|;
    if !Admissible(t.eating, id) then None
    else
      var (first, second) := TakeOrder(id, n);
      match TakeForks(t.forkUsed, first, second)
      case None => None
      case Some(u) => Some(SharedState(t.eating[id := true], u))
  }

  /** pickUpForks exactly as written: PickUp with takeForks as written in
      place of the corrected takeForks. */
  function PickUpAsWritten(t: SharedState, id: nat): (r: Option<SharedState>)
    requires WellFormed(t) && id < |t.eating|
    ensures r.Some? <==> Admissible(t.eating, id) && !t.forkUsed[id] && !t.forkUsed[Right(id, |t.eating|)]
                         && Right(id, |t.eating|) != id
    ensures r.Some? ==> r.value.eating == t.eating[id := true]
  {
    var n := |t.eating|;
    if !Admissible(t.eating, id) then None
    else
      var (first, second) := TakeOrder(id, n);
      match TakeForksAsWritten(t.forkUsed, first, second)
      case None => None
      case Some(u) => Some(SharedState(t.eating[id := true], u))
  }

  /** The safety results about PickUp cover the code as written: whenever the
      step as written completes it does what PickUp does, and on every ring of
      two or more seats the two are the same step. Only the one-seat ring,
      where the code as written never completes, tells them apart. */
  lemma AsWrittenStepIsModelStep(t: SharedState, id: nat)
    requires WellFormed(t) && id < |t.eating|
    ensures PickUpAsWritten(t, id).Some? ==> PickUp(t, id) == PickUpAsWritten(t, id)
    ensures |t.eating| >= 2 ==> PickUp(t, id) == PickUpAsWritten(t, id)
  {
    var n := |t.eating|;
    var (first, second) := TakeOrder(id, n);
    if first != second {
      TakeForksAgreesOnDistinctForks(t.forkUsed, first, second);
    }
  }

  /** The admission gate's guarantee: on a consistent ring, a philosopher
      that is admitted finds both its forks free. */
  lemma AdmittedFindsForksFree(t: SharedState, id: nat)
    requires Consistent(t) && id < |t.eating| && Admissible(t.eating, id)
    ensures !t.forkUsed[id] && !t.forkUsed[Right(id, |t.eating|)]
  {
    LeftRightInverse(id, |t.eating|);
  }

  /** Hence on a consistent ring pick-up is enabled exactly when admission holds:
      the fork takes that follow admission never block. */
  lemma PickUpEnabledIffAdmissible(t: SharedState, id: nat)
    requires Consistent(t) && id < |t.eating|
    ensures PickUp(t, id).Some? <==> Admissible(t.eating, id)
  {
    if Admissible(t.eating, id) {
      AdmittedFindsForksFree(t, id);
    }
  }

  /** After pick-up the philosopher is marked eating, holds both its forks, and
      no other entry of the vector or of the fork list changed. */
  lemma PickUpEffect(t: SharedState, id: nat)
    requires WellFormed(t) && id < |t.eating| && PickUp(t, id).Some?
    ensures PickUp(t, id).value.eating == t.eating[id := true]
    ensures PickUp(t, id).value.forkUsed == t.forkUsed[id := true][Right(id, |t.eating|) := true]
  {
    var n := |t.eating|;
    if id % 2 == 1 && id != Right(id, n) {
      assert t.forkUsed[Right(id, n) := true][id := true] == t.forkUsed[id := true][Right(id, n) := true];
    }
  }

  /** Pick-up keeps the ring consistent. */
  lemma PickUpKeepsConsistent(t: SharedState, id: nat)
    requires Consistent(t) && id < |t.eating| && PickUp(t, id).Some?
    ensures Consistent(PickUp(t, id).value)
  {
    var n := |t.eating|;
    var t' := PickUp(t, id).value;
    PickUpEffect(t, id);
    PickUpKeepsNoAdjacentEating(t.eating, id);
    LeftRightInverse(id, n);
    forall k | 0 <= k < n
      ensures t'.forkUsed[k] == (t'.eating[k] || t'.eating[Left(k, n)])
    {
      LeftRightInverse(k, n);
    }
  }

  /** putDownForks as one atomic step: put down the left fork, then the right
      fork, then eatingStates[id] = false. */
  function PutDownForks(t: SharedState, id: nat): (r: SharedState)
    requires WellFormed(t) && id < |t.eating|
    ensures WellFormed(r) && r.eating == t.eating[id := false]
    ensures |r.forkUsed| == |t.forkUsed| && !r.forkUsed[id] && !r.forkUsed[Right(id, |t.eating|)]
    ensures forall k :: 0 <= k < |t.forkUsed| && k != id && k != Right(id, |t.eating|) ==>
              r.forkUsed[k] == t.forkUsed[k]
  {
    var n := |t.eating|;
    SharedState(t.eating[id := false], PutDownFork(PutDownFork(t.forkUsed, id), Right(id, n)))
  }

  /** Putting down after eating keeps the ring consistent: neither neighbour can
      have been eating, so both forks really are free afterwards. */
  lemma PutDownKeepsConsistent(t: SharedState, id: nat)
    requires Consistent(t) && id < |t.eating| && t.eating[id]
    ensures Consistent(PutDownForks(t, id))
  {
    var n := |t.eating|;
    var t' := PutDownForks(t, id);
    ClearKeepsNoAdjacentEating(t.eating, id);
    LeftRightInverse(id, n);
    forall k | 0 <= k < n
      ensures t'.forkUsed[k] == (t'.eating[k] || t'.eating[Left(k, n)])
    {
      LeftRightInverse(k, n);
      if k == id && Left(id, n) != id {
        assert Right(Left(id, n), n) == id;
      }
    }
  }

  /** releaseForks as one atomic step: put down the right fork, then the left
      fork, then eatingStates[id] = false. The reverse order of the two
      put-downs ends in the same state as putDownForks. */
  function ReleaseForks(t: SharedState, id: nat): (r: SharedState)
    requires WellFormed(t) && id < |t.eating|
    ensures r == PutDownForks(t, id)
  {
    var n := |t.eating|;
    var u := PutDownFork(PutDownFork(t.forkUsed, Right(id, n)), id);
    assert u == PutDownFork(PutDownFork(t.forkUsed, id), Right(id, n));
    SharedState(t.eating[id := false], u)
  }

  /** releaseForksIfEating: does nothing unless eatingStates[id] is set, and
      otherwise ends like putDownForks. */
  function ReleaseForksIfEating(t: SharedState, id: nat): (r: SharedState)
    requires WellFormed(t) && id < |t.eating|
    ensures !t.eating[id] ==> r == t
    ensures t.eating[id] ==> r == PutDownForks(t, id)
  {
    if t.eating[id] then ReleaseForks(t, id) else t
  }

  /** The interrupt path keeps the ring consistent: it changes nothing for a
      philosopher that is not eating, and otherwise ends like putDownForks. */
  lemma ReleaseIfEatingKeepsConsistent(t: SharedState, id: nat)
    requires Consistent(t) && id < |t.eating|
    ensures Consistent(ReleaseForksIfEating(t, id))
  {
    if t.eating[id] {
      PutDownKeepsConsistent(t, id);
    }
  }

  /** One atomic step of philosopher id's thread. PutDownStep is enabled only
      while id is marked eating: run() calls putDownForks only after its own
      pickUpForks and eat, and only id's own thread clears its entry.
      InterruptStep is the catch block of run(). */
  datatype Step = PickUpStep(id: nat) | PutDownStep(id: nat) | InterruptStep(id: nat)

  function Next(t: SharedState, step: Step): (r: Option<SharedState>)
    requires WellFormed(t)
    ensures r.Some? ==> WellFormed(r.value) && |r.value.eating| == |t.eating|
  {
    var n := |t.eating|;
    match step
    case PickUpStep(id) =>
      if id < n then
        match PickUp(t, id)
        case None => None
        case Some(t') => PickUpEffect(t, id); Some(t')
      else None
    case PutDownStep(id) =>
      if id < n && t.eating[id] then Some(PutDownForks(t, id)) else None
    case InterruptStep(id) =>
      if id < n then Some(ReleaseForksIfEating(t, id)) else None
  }

  /** Runs an interleaving of steps; None as soon as a step is not enabled. */
  function Run(t: SharedState, steps: seq<Step>): (r: Option<SharedState>)
    requires WellFormed(t)
    ensures r.Some? ==> WellFormed(r.value) && |r.value.eating| == |t.eating|
    decreases |steps|
  {
    if steps == [] then Some(t)
    else
      match Next(t, steps[0])
      case None => None
      case Some(t') => Run(t', steps[1..])
  }

  /** Every atomic step keeps the ring consistent. */
  lemma NextKeepsConsistent(t: SharedState, step: Step)
    requires Consistent(t) && Next(t, step).Some?
    ensures Consistent(Next(t, step).value)
  {
    match step
    case PickUpStep(id) => PickUpKeepsConsistent(t, id);
    case PutDownStep(id) => PutDownKeepsConsistent(t, id);
    case InterruptStep(id) => ReleaseIfEatingKeepsConsistent(t, id);
  }

  /** Any interleaving of enabled steps keeps the ring consistent. */
  lemma {:induction false} RunKeepsConsistent(t: SharedState, steps: seq<Step>)
    requires Consistent(t) && Run(t, steps).Some?
    ensures Consistent(Run(t, steps).value)
    decreases |steps|
  {
    if steps != [] {
      NextKeepsConsistent(t, steps[0]);
      RunKeepsConsistent(Next(t, steps[0]).value, steps[1..]);
    }
  }

  /** From a freshly built ring, every reachable state has no two adjacent
      philosophers eating, and every used fork is held by exactly one of the two
      philosophers beside it. */
  lemma ReachableIsSafe(n: nat, steps: seq<Step>, k: nat)
    requires n >= 1 && Run(Idle(n), steps).Some? && k < n
    ensures NoAdjacentEating(Run(Idle(n), steps).value.eating)
    ensures var t := Run(Idle(n), steps).value;
            t.forkUsed[k] ==> t.eating[k] || t.eating[Left(k, n)]
    ensures var t := Run(Idle(n), steps).value;
            k != Left(k, n) ==> !(t.eating[k] && t.eating[Left(k, n)])
  {
    IdleIsConsistent(n);
    RunKeepsConsistent(Idle(n), steps);
    ForkHeldByOne(Run(Idle(n), steps).value, k);
  }
}
