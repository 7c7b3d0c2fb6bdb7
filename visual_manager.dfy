/** VisualManager without its drawing: the ring it builds and rebuilds, the
    population count, the per-seat visible states, and the gif-name mapping. */
module Manager {
  import opened Ring
  import opened Admission
  import opened Forks
  import opened Philosophers
  import opened Protocol

  /** The visible state of one seat. */
  class PhilosopherState {
    const id: int
    var state: string

    constructor (id: int, state: string)
      ensures this.id == id && this.state == state
    {
      this.id := id;
      this.state := state;
    }

    method SetState(state: string)
      modifies this
      ensures this.state == state
    {
      this.state := state;
    }
  }

  /** The four states a philosopher announces while handling a fork. */
  const ForkStates: set<string> :=
    {"LIFTING_LEFT_FORK", "LIFTING_RIGHT_FORK", "PUTTING_DOWN_LEFT_FORK", "PUTTING_DOWN_RIGHT_FORK"}

  /** Every state a philosopher announces. */
  const StateNames: set<string> := ForkStates + {"THINKING", "HUNGRY", "EATING"}

  /** The gif drawn for a state (the switch in paintComponent): the four fork
      states are renamed, every other state string is its own gif name. */
  function GifName(state: string): (path: string)
    ensures path != state <==> state in ForkStates
  {
    if state == "LIFTING_LEFT_FORK" then "LIFTING"
    else if state == "LIFTING_RIGHT_FORK" then "LIFTING_RIGHT"
    else if state == "PUTTING_DOWN_LEFT_FORK" then "PUTTING_LEFT"
    else if state == "PUTTING_DOWN_RIGHT_FORK" then "PUTTING"
    else state
  }

  /** No two announced states share a gif, so the picture identifies the state. */
  lemma GifNameDistinguishesStates(a: string, b: string)
    requires a in StateNames && b in StateNames && GifName(a) == GifName(b)
    ensures a == b
  {
  }

  /** The two buttons that change the population. */
  datatype Click = Add | Remove

  /** philosopherCount after one click: add always grows it by one; remove
      shrinks it by one only while it is above one. */
  function NextCount(count: int, click: Click): (r: int)
    ensures count >= 1 ==> r >= 1
    ensures count - 1 <= r <= count + 1
    ensures click == Add ==> r == count + 1
    ensures click == Remove ==> (r < count <==> count > 1)
    ensures click == Remove && count <= 1 ==> r == count
  {
    match click
    case Add => count + 1
    case Remove => if count > 1 then count - 1 else count
  }

  /** philosopherCount after a sequence of clicks. The guard in
      removePhilosopher keeps at least one philosopher whatever the clicks (the
      manager starts from two), and each click adds at most one. */
  function CountAfter(count: int, clicks: seq<Click>): (r: int)
    ensures count >= 1 ==> r >= 1
    ensures r <= count + |clicks|
    decreases |clicks|
  {
    if clicks == [] then count else CountAfter(NextCount(count, clicks[0]), clicks[1..])
  }

  /** The first loop of initializePhilosophers: n new, free, distinct forks. */
  method NewForks(n: nat) returns (forks: seq<Fork>)
    ensures |forks| == n && Distinct(forks)
    ensures forall j :: 0 <= j < n ==> fresh(forks[j]) && !forks[j].isUsed
  {
    forks := [];
    while |forks| < n
      invariant |forks| <= n && Distinct(forks)
      invariant forall j :: 0 <= j < |forks| ==> fresh(forks[j]) && !forks[j].isUsed
    {
      var fork := new Fork();
      forks := forks + [fork];
    }
  }

  /** The second loop of initializePhilosophers: philosopher i between fork i
      and fork Right(i, n), sharing the table (each construction resets the
      shared vector to n idle entries), with a fresh THINKING state. */
  method SeatPhilosophers(forks: seq<Fork>, table: AdmissionTable)
    returns (philosophers: seq<Philosopher>, states: seq<PhilosopherState>)
    modifies table
    ensures |philosophers| == |forks| && |states| == |forks|
    ensures forall j :: 0 <= j < |forks| ==>
              philosophers[j].id == j && philosophers[j].table == table &&
              philosophers[j].leftFork == forks[j] && philosophers[j].rightFork == forks[Right(j, |forks|)]
    ensures forall j :: 0 <= j < |forks| ==> states[j].id == j && states[j].state == "THINKING"
    ensures forall j, k :: 0 <= j < k < |forks| ==> states[j] != states[k]
    ensures |forks| >= 1 ==> fresh(table.eatingStates) && table.eatingStates[..] == seq(|forks|, _ => false)
    ensures |forks| == 0 ==> table.eatingStates == old(table.eatingStates)
    ensures forall j :: 0 <= j < |forks| ==> unchanged(forks[j])
  {
    var n := |forks|;
    philosophers, states := [], [];
    var i := 0;
    while i < n
      invariant 0 <= i <= n
      invariant |philosophers| == i && |states| == i
      invariant forall j :: 0 <= j < i ==>
                  philosophers[j].id == j && philosophers[j].table == table &&
                  philosophers[j].leftFork == forks[j] && philosophers[j].rightFork == forks[Right(j, n)]
      invariant forall j :: 0 <= j < i ==> fresh(states[j]) && states[j].id == j && states[j].state == "THINKING"
      invariant forall j, k :: 0 <= j < k < i ==> states[j] != states[k]
      invariant i >= 1 ==> fresh(table.eatingStates) && table.eatingStates[..] == seq(n, _ => false)
      invariant i == 0 ==> table.eatingStates == old(table.eatingStates)
      invariant forall j :: 0 <= j < n ==> unchanged(forks[j])
    {
      var philosopher := new Philosopher(i, forks[i], forks[Right(i, n)], table, n);
      var state := new PhilosopherState(i, "THINKING");
      states := states + [state];
      philosophers := philosophers + [philosopher];
      i := i + 1;
    }
  }

  class VisualManager {
    var philosopherStates: seq<PhilosopherState>
    var forks: seq<Fork>
    var philosophers: seq<Philosopher>
    var philosopherCount: int
    /** The eatingStates array Philosopher keeps in a static field. */
    const table: AdmissionTable

    /** The lists describe a ring of n seats: philosopher i sits at seat i
        between fork i and fork Right(i, n), shares the manager's table, and
        its visible state carries id i; forks and state objects are distinct. */
    ghost predicate Wired(n: nat)
      reads this
    {
      && |forks| == n && |philosophers| == n && |philosopherStates| == n
      && (forall i :: 0 <= i < n ==>
            philosophers[i].id == i && philosophers[i].table == table &&
            philosophers[i].leftFork == forks[i] && philosophers[i].rightFork == forks[Right(i, n)])
      && (forall i :: 0 <= i < n ==> philosopherStates[i].id == i)
      && Distinct(forks)
      && (forall i, j :: 0 <= i < j < n ==> philosopherStates[i] != philosopherStates[j])
    }

    /** The object invariant: a ring of philosopherCount >= 1 seats with an
        eating-state vector of that length. */
    ghost predicate Valid()
      reads this, table
    {
      philosopherCount >= 1 && Wired(philosopherCount) &&
      table.eatingStates.Length == philosopherCount
    }

    /** Nobody eats, every fork is free, every seat shows THINKING. */
    ghost predicate AtRest()
      reads this, forks, philosopherStates, table, table.eatingStates
    {
      (forall i :: 0 <= i < table.eatingStates.Length ==> !table.eatingStates[i]) &&
      (forall i :: 0 <= i < |forks| ==> !forks[i].isUsed) &&
      (forall i :: 0 <= i < |philosopherStates| ==> philosopherStates[i].state == "THINKING")
    }

    /** An idle valid ring is consistent. */
    lemma IdleRingIsConsistent()
      requires Valid() && AtRest()
      ensures Consistent(RingState(table.eatingStates, forks))
    {
      assert RingState(table.eatingStates, forks) == Idle(philosopherCount);
      IdleIsConsistent(philosopherCount);
    }

    constructor ()
      ensures Valid() && AtRest() && philosopherCount == 2
    {
      philosopherCount := 2;
      table := new AdmissionTable();
      forks, philosophers, philosopherStates := [], [], [];
      new;
      InitializePhilosophers(philosopherCount);
    }

    /** initializePhilosophers(count): clears the lists, creates count free
        forks, then count philosophers wired into a ring (each construction
        resetting the shared vector) with a THINKING state each. */
    method InitializePhilosophers(count: int)
      modifies this, table
      ensures Wired(if count < 0 then 0 else count)
      ensures forall i :: 0 <= i < |forks| ==> fresh(forks[i]) && !forks[i].isUsed
      ensures forall i :: 0 <= i < |philosopherStates| ==> philosopherStates[i].state == "THINKING"
      ensures count >= 1 ==> fresh(table.eatingStates) && table.eatingStates[..] == seq(count, _ => false)
      ensures count < 1 ==> table.eatingStates == old(table.eatingStates)
      ensures philosopherCount == old(philosopherCount)
    {
      var n: nat := if count < 0 then 0 else count;
      var newForks := NewForks(n);
      var newPhilosophers, newStates := SeatPhilosophers(newForks, table);
      forks, philosophers, philosopherStates := newForks, newPhilosophers, newStates;
    }

    /** addPhilosopher: stop every thread, grow the count by one and rebuild the
        ring at the new size. */
    method AddPhilosopher()
      requires Valid()
      modifies this, table
      ensures philosopherCount == NextCount(old(philosopherCount), Add)
      ensures Valid() && AtRest()
      ensures forall i :: 0 <= i < |forks| ==> fresh(forks[i])
      ensures fresh(table.eatingStates)
    {
      philosopherCount := philosopherCount + 1;
      InitializePhilosophers(philosopherCount);
    }

    /** removePhilosopher: with more than one philosopher, stop every thread,
        shrink the count by one and rebuild the ring; otherwise do nothing. */
    method RemovePhilosopher()
      requires Valid()
      modifies this, table
      ensures philosopherCount == NextCount(old(philosopherCount), Remove)
      ensures Valid()
      ensures old(philosopherCount) <= 1 ==> unchanged(this, table)
      ensures old(philosopherCount) > 1 ==> AtRest() && fresh(table.eatingStates)
      ensures old(philosopherCount) > 1 ==> forall i :: 0 <= i < |forks| ==> fresh(forks[i])
    {
      if philosopherCount > 1 {
        philosopherCount := philosopherCount - 1;
        InitializePhilosophers(philosopherCount);
      }
    }

    /** updateState(id, state): only seat id's visible state changes. */
    method UpdateState(id: int, state: string)
      requires Valid() && 0 <= id < |philosopherStates|
      modifies philosopherStates[id]
      ensures philosopherStates[id].state == state
      ensures forall j :: 0 <= j < |philosopherStates| && j != id ==>
                philosopherStates[j].state == old(philosopherStates[j].state)
    {
      philosopherStates[id].SetState(state);
    }

    /** Every philosopher of a valid manager is seated in its ring: this is the
        Seated precondition of PickUpOnRing, PutDownOnRing and InterruptOnRing
        for philosophers[i] and forks, on the manager's own table. Their other
        preconditions (a consistent ring, and admission or an eating seat) are
        not implied by Valid(). */
    lemma PhilosophersSeated(i: nat)
      requires Valid() && i < philosopherCount
      ensures Seated(philosophers[i], forks) && philosophers[i].table == table
    {
    }
  }
}
