# Dining philosophers: the admission gate, the forks and the ring

This project models, in Dafny, the sequential core of a Swing demonstration
of the dining-philosophers problem (package `DinningPhilosophers`).

- **Philosophers and forks.** `n` philosophers sit around a table with one
  fork between each pair of neighbours. Philosopher `i` holds fork `i` (its
  left fork) and fork `(i + 1) % n` (its right fork).
- **Admission gate.** A global lock guards a static `eatingStates` vector,
  one flag per seat. A hungry philosopher waits until neither it nor either
  neighbour is marked eating.
- **Pick-up.** It then takes its two forks: an even seat takes the left
  fork first, an odd seat the right one. Then it marks itself eating.
- **Put-down.** When finished it puts both forks down and clears its flag.
- **Interruption.** An interrupted philosopher releases its forks only if it
  is marked eating.
- **`VisualManager`.** It builds the ring, rebuilds it whenever a
  philosopher is added or removed (never below one), keeps the visible state
  of every seat, and maps each state to the name of the gif it draws.

Each locked or `synchronized` region is modelled as one atomic step. Its
wait loop becomes the condition under which the step is enabled: a
`requires` on the methods, `None` from the value-level functions. The model
has two layers.

- **Object layer.** `Fork`, `Philosopher` (with its static vector as the
  shared `AdmissionTable` object) and `VisualManager` are classes whose
  methods update their fields and arrays in place.
- **Value layer.** Module `Protocol` has a `SharedState` value holding the eating vector and
  the fork flags, the steps as functions on it, and the ring invariant
  `Consistent`. `Consistent` means three things.
  - No two neighbouring seats are both eating.
  - Fork `k` is in use exactly when philosopher `k` or philosopher
    `Left(k)` eats.
  - The two lists have the same length `n >= 1`.
- **The link between them.** `Philosophers.PickUpOnRing`, `PutDownOnRing`
  and `InterruptOnRing` run a philosopher's object-level method. They prove
  that the ring changes exactly as the value-level step says.
  `Manager.VisualManager.PhilosophersSeated` shows that every philosopher of
  a valid manager is seated in its ring, which is the `Seated` precondition of
  those three methods. Their other preconditions are stated separately: a
  consistent ring (`IdleRingIsConsistent` gives one for a manager at rest),
  and admission or an eating seat.

State strings are the code's own literals (`LIFTING_LEFT_FORK`,
`PUTTING_DOWN_RIGHT_FORK`, ...). The notifications a philosopher sends to
`updateState` while handling forks are returned as the `announced` sequence.

Files:

- `ring.dfy`: seat arithmetic.
- `fork.dfy`: the `Fork` class.
- `admission.dfy`: the admission predicate, the no-adjacent-eating
  invariant and the resize.
- `protocol.dfy`: the ring as a value, its steps and interleavings, and the
  finding.
- `philosopher.dfy`: `AdmissionTable`, `Philosopher` and the ring-level steps.
- `visual_manager.dfy`: `PhilosopherState`, the gif mapping, the population
  count and `VisualManager`.

## Model

| member | source | states |
|---|---|---|
| Ring.Right | DinningPhilosophers/Philosopher.java:67 | the right-neighbour index `(id + 1) % n` lies in `[0, n)` and wraps from `n - 1` to 0 |
| Ring.Left | DinningPhilosophers/Philosopher.java:67 | the left-neighbour index `(id - 1 + n) % n` lies in `[0, n)` and wraps from 0 to `n - 1` |
| Ring.LeftRightInverse | DinningPhilosophers/VisualManager.java:31 | one seat right then one seat left (or the reverse) is the identity, so the right fork of seat i is the left fork of seat `(i + 1) % n` |
| Ring.NeighboursAreLeftAndRight | DinningPhilosophers/Philosopher.java:67 | two seats touch exactly when one is the other's left or right seat |
| Admission.Admissible | DinningPhilosophers/Philosopher.java:66-70 | the negation of waitForForks' loop guard: the seat, its right neighbour and its left neighbour are all not eating (a predicate; its meaning is proved by the next row) |
| Admission.AdmissibleIffNeighbourhoodIdle | DinningPhilosophers/Philosopher.java:66-70 | waitForForks lets a philosopher through exactly when no seat in its closed neighbourhood (itself, left, right) is marked eating |
| Admission.NoAdjacentEating | DinningPhilosophers/Philosopher.java:67-68 | the headline invariant: no seat and its distinct right neighbour are both marked eating (a predicate; the lemmas below prove what keeps it) |
| Admission.NoAdjacentEatingPairwise | DinningPhilosophers/Philosopher.java:67-68 | under the invariant, any two distinct neighbouring seats are not both eating |
| Admission.PickUpKeepsNoAdjacentEating | DinningPhilosophers/Philosopher.java:60-68 | if no two neighbours eat and admission holds, setting `eatingStates[id]` keeps it so |
| Admission.ClearKeepsNoAdjacentEating | DinningPhilosophers/Philosopher.java:91 | clearing an entry (putDownForks, releaseForks) never breaks the invariant |
| Admission.IdleHasNoAdjacentEating | DinningPhilosophers/Philosopher.java:22 | the all-false vector the constructor installs satisfies the invariant |
| Admission.Resized | DinningPhilosophers/Philosopher.java:125-127 | the resized vector has length k, keeps the old entries below min(old length, k) and is false beyond the old length |
| Admission.GrowKeepsNoAdjacentEating | DinningPhilosophers/Philosopher.java:122-131 | growing the vector keeps the no-adjacent-eating invariant |
| Admission.ShrinkCanBreakNoAdjacentEating | DinningPhilosophers/Philosopher.java:122-131 | shrinking a valid vector while seats eat can break the invariant (seats 0 and 3 of five become neighbours in four) |
| Forks.Fork.constructor | DinningPhilosophers/Fork.java:2 | a new fork is free |
| Forks.Fork.Take | DinningPhilosophers/Fork.java:4-9 | take completes only on a free fork and leaves it used |
| Forks.Fork.PutDown | DinningPhilosophers/Fork.java:11-14 | putDown leaves the fork free whatever its prior state |
| Protocol.TakeFork | DinningPhilosophers/Fork.java:4-9 | take is enabled exactly on a free fork, marks that fork used and changes no other fork |
| Protocol.PutDownFork | DinningPhilosophers/Fork.java:11-14 | putDown leaves the fork free and changes no other fork |
| Protocol.TakeThenPutDownRestores | DinningPhilosophers/Fork.java:4-14 | take of a free fork succeeds, and a following putDown gives back the fork list unchanged |
| Protocol.PutDownIdempotent | DinningPhilosophers/Fork.java:11-14 | putting a fork down twice is putting it down once, and it is free afterwards |
| Protocol.TakeForksAsWritten | DinningPhilosophers/Philosopher.java:72-79 | takeForks as written can complete only when both forks are free and they are two different forks; it then leaves both used |
| Protocol.SingleSeatTakeForksBlocks | DinningPhilosophers/Philosopher.java:72-79 | as written, with one seat the second take waits on the fork just taken, so pick-up never completes |
| Protocol.TakeForks | DinningPhilosophers/Philosopher.java:72-79 | the corrected takeForks is enabled exactly when both forks are free, and leaves exactly those two forks used |
| Protocol.TakeForksAgreesOnDistinctForks | DinningPhilosophers/Philosopher.java:72-79 | whenever the two forks differ, the correction behaves exactly as the code as written |
| Protocol.TakeForksOrderIrrelevant | DinningPhilosophers/Philosopher.java:55-59 | taking the two forks in either order is enabled in the same states and ends in the same state |
| Protocol.TakeOrder | DinningPhilosophers/Philosopher.java:55-59 | the two takes are the seat's own two forks, and the left fork (fork id) comes first exactly for an even seat (or when both forks are the same fork) |
| Protocol.Idle | DinningPhilosophers/VisualManager.java:26-36 | the freshly built ring of n seats: nobody is eating and every fork is free |
| Protocol.IdleIsConsistent | DinningPhilosophers/VisualManager.java:26-36 | the freshly built ring (nobody eating, every fork free) is consistent |
| Protocol.EatingHoldsBothForks | DinningPhilosophers/Philosopher.java:55-60 | on a consistent ring an eating philosopher holds both its forks |
| Protocol.ForkHeldByOne | DinningPhilosophers/Philosopher.java:55-60 | on a consistent ring a used fork is held by one of its two philosophers, never by both |
| Protocol.PickUp | DinningPhilosophers/Philosopher.java:51-64 | pickUpForks with the corrected takeForks can complete exactly when admission holds and both forks are free; it then marks the seat eating, changes no other entry, and leaves both forks used |
| Protocol.AdmittedFindsForksFree | DinningPhilosophers/Philosopher.java:66-70 | on a consistent ring an admitted philosopher finds both its forks free |
| Protocol.PickUpEnabledIffAdmissible | DinningPhilosophers/Philosopher.java:51-64 | on a consistent ring the corrected pick-up can complete exactly when admission holds |
| Protocol.PickUpAsWritten | DinningPhilosophers/Philosopher.java:51-79 | pickUpForks exactly as written can complete exactly when admission holds, both forks are free and they are two different forks; it then marks the seat eating |
| Protocol.AsWrittenStepIsModelStep | DinningPhilosophers/Philosopher.java:51-79 | whenever pickUpForks as written completes it does what the corrected `PickUp` does, and on rings of two or more seats the two are the same step, so the safety results cover the code as written |
| Protocol.PickUpEffect | DinningPhilosophers/Philosopher.java:51-64 | pick-up marks the seat eating and its two forks used, and changes nothing else |
| Protocol.PickUpKeepsConsistent | DinningPhilosophers/Philosopher.java:51-64 | pick-up keeps the ring consistent |
| Protocol.PutDownForks | DinningPhilosophers/Philosopher.java:86-96 | putDownForks clears only the seat's entry, frees both its forks and changes no other fork |
| Protocol.PutDownKeepsConsistent | DinningPhilosophers/Philosopher.java:86-96 | putDownForks after eating keeps the ring consistent |
| Protocol.ReleaseForks | DinningPhilosophers/Philosopher.java:110-120 | putting down the right fork before the left ends in the same state as putDownForks |
| Protocol.ReleaseForksIfEating | DinningPhilosophers/Philosopher.java:104-108 | it changes nothing for a seat not eating, and otherwise ends like putDownForks |
| Protocol.ReleaseIfEatingKeepsConsistent | DinningPhilosophers/Philosopher.java:104-120 | the interrupt path keeps the ring consistent |
| Protocol.Next | DinningPhilosophers/Philosopher.java:31-44 | one enabled step of a philosopher's thread keeps the ring's shape and size |
| Protocol.Run | DinningPhilosophers/Philosopher.java:31-44 | an interleaving of enabled steps keeps the ring's shape and size |
| Protocol.NextKeepsConsistent | DinningPhilosophers/Philosopher.java:31-44 | every atomic step keeps the ring consistent |
| Protocol.RunKeepsConsistent | DinningPhilosophers/Philosopher.java:31-44 | every interleaving of enabled steps keeps the ring consistent |
| Protocol.ReachableIsSafe | DinningPhilosophers/Philosopher.java:66-68 | from a freshly built ring, no two neighbours ever eat together, and a used fork is held by exactly one of its philosophers (every state the code as written reaches is reached here, by `AsWrittenStepIsModelStep`) |
| Philosophers.AdmissionTable.constructor | DinningPhilosophers/Philosopher.java:15 | before any philosopher exists the shared vector is empty |
| Philosophers.AdmissionTable.UpdateEatingStatesSize | DinningPhilosophers/Philosopher.java:122-131 | installs a fresh vector equal to `Resized(old vector, newSize)` |
| Philosophers.Philosopher.constructor | DinningPhilosophers/Philosopher.java:17-23 | records seat and forks, and replaces the shared vector by a fresh all-false one of length philSize |
| Philosophers.Philosopher.PickUpForks | DinningPhilosophers/Philosopher.java:51-79 | after admission with free forks: both forks used, only `eatingStates[id]` set, and the two lifting states announced in parity order |
| Philosophers.Philosopher.PutDownForks | DinningPhilosophers/Philosopher.java:86-102 | both forks free, only `eatingStates[id]` cleared, and the two putting-down states announced left then right |
| Philosophers.Philosopher.ReleaseForks | DinningPhilosophers/Philosopher.java:110-120 | both forks free and only `eatingStates[id]` cleared |
| Philosophers.Philosopher.ReleaseForksIfEating | DinningPhilosophers/Philosopher.java:104-108 | with the seat not eating, nothing changes; otherwise both forks are freed and the entry is cleared |
| Philosophers.PickUpOnRing | DinningPhilosophers/Philosopher.java:51-64 | PickUpForks on a consistent ring changes it exactly as `PickUp` does, and keeps it consistent |
| Philosophers.PutDownOnRing | DinningPhilosophers/Philosopher.java:86-96 | PutDownForks on a consistent ring changes it exactly as `PutDownForks` does, and keeps it consistent |
| Philosophers.InterruptOnRing | DinningPhilosophers/Philosopher.java:40-41 | the catch block's releaseForksIfEating changes the ring as `ReleaseForksIfEating` does, and keeps it consistent |
| Manager.PhilosopherState.constructor | DinningPhilosophers/VisualManager.java:131-134 | a state object records its id and state |
| Manager.PhilosopherState.SetState | DinningPhilosophers/VisualManager.java:140-142 | setState replaces the state |
| Manager.GifName | DinningPhilosophers/VisualManager.java:100-106 | the gif name differs from the state string exactly for the four fork states |
| Manager.GifNameDistinguishesStates | DinningPhilosophers/VisualManager.java:100-106 | no two announced states share a gif |
| Manager.NextCount | DinningPhilosophers/VisualManager.java:39-64 | one click: add grows the count by exactly one; remove shrinks it exactly when it is above one and otherwise leaves it as it is; a count of at least one stays at least one |
| Manager.CountAfter | DinningPhilosophers/VisualManager.java:12-64 | from a count of at least one, any sequence of add/remove clicks keeps `philosopherCount >= 1`, and grows it by at most one per click |
| Manager.NewForks | DinningPhilosophers/VisualManager.java:26-29 | count new, free, distinct forks |
| Manager.SeatPhilosophers | DinningPhilosophers/VisualManager.java:30-36 | philosopher i gets id i, fork i and fork `(i + 1) % count`; state i has id i and THINKING; the shared vector is count idle entries |
| Manager.VisualManager.constructor | DinningPhilosophers/VisualManager.java:12-18 | the manager starts valid and at rest with two philosophers |
| Manager.VisualManager.IdleRingIsConsistent | DinningPhilosophers/VisualManager.java:20-37 | a valid manager at rest holds a consistent ring |
| Manager.VisualManager.InitializePhilosophers | DinningPhilosophers/VisualManager.java:20-37 | the three lists have length count and describe a ring, every fork is new and free, every seat shows THINKING, and the vector is count idle entries |
| Manager.VisualManager.AddPhilosopher | DinningPhilosophers/VisualManager.java:39-43 | the count grows by exactly one and the ring is rebuilt at rest at the new size |
| Manager.VisualManager.RemovePhilosopher | DinningPhilosophers/VisualManager.java:58-64 | with count at most one nothing changes; otherwise the count shrinks by one and the ring is rebuilt at rest |
| Manager.VisualManager.UpdateState | DinningPhilosophers/VisualManager.java:79-83 | only seat id's visible state changes, to the given state |
| Manager.VisualManager.PhilosophersSeated | DinningPhilosophers/VisualManager.java:31 | each philosopher of a valid manager sits between fork i and fork `(i + 1) % count` of a distinct-fork ring, on the manager's own vector |

## Left out

- Threads, the global `ReentrantLock` and its condition, `wait`/`notifyAll`,
  `signalAll` and `Thread.sleep`. These need a concurrency semantics; each
  locked region is one atomic step instead, and interleavings are sequences of
  steps (`Protocol.Run`).
- Liveness: deadlock freedom, starvation freedom and the fairness of the
  wake-ups. Only safety is proved. The finding below is a liveness failure,
  shown as a step that is never enabled.
- `Random` think and eat durations, and the `think` and `eat` phases
  themselves. Their only lasting effect is a call to `updateState`, which is
  modelled separately.
- The `run` loop as code. Its steps are the `Protocol.Step` cases.
  `PutDownStep` is enabled only while the seat is marked eating, because the
  loop calls `putDownForks` only after its own `pickUpForks`.
- Interrupts that arrive inside a locked region are not modelled, because
  this model treats pick-up and put-down as atomic. The ring is always
  rebuilt with new forks after `stopPhilosophers`. There are three such
  cases.
  - During the sleep after the first take in `takeForks`: that fork stays
    used while `eatingStates[id]` is still false, so `releaseForksIfEating`
    never frees it.
  - During the sleep after the second take: both forks stay used while
    `eatingStates[id]` is still false, and neither is ever freed.
  - During a sleep in `putDownFork`: the region is left after one or both
    forks are down, but before `eatingStates[id] = false` and `signalAll`.
    `releaseForksIfEating` later finishes the job, and the end state equals
    `PutDownForks`. Until then another thread can see a free fork whose
    seat is still marked eating, which breaks `ForksMatchEating`.
- `stop()`, `stopPhilosophers` with its 150 ms grace period, and the unused
  `stopPhilosopher`. Thread lifecycle is not modelled.
- Threads that keep running against a vector that a later constructor
  replaces. `initializePhilosophers` starts thread i before philosopher
  i + 1 is constructed. The model builds the ring first and runs steps
  afterwards.
- `paintComponent` layout, `updateLog`, `repaint`, `refreshUI` and
  `Main.java` (Swing, floating point, text output). Only the gif-name
  switch is kept.
- The commented-out in-place insert in `addPhilosopher`.
- Index and size errors. The source throws `ArrayIndexOutOfBoundsException`
  or `IndexOutOfBoundsException` for a seat outside the vector or list. The
  model makes the index a precondition (`id < eatingStates.Length`, or
  `Valid()` with `id < |philosopherStates|`). The source also throws
  `NegativeArraySizeException` for a negative `philSize` in the constructor
  or a negative `newSize` in `updateEatingStatesSize`. Both parameters are
  `nat` in the model, so that error path is not modelled.
- The static `eatingStates` starts as `null`, and a resize before the first
  philosopher would throw. The model starts from an empty vector.
- Manager.VisualManager.AddPhilosopher: `philosopherCount` is an unbounded
  integer. The 32-bit overflow after 2^31 - 1 additions is not modelled.
- `Thread` objects, the `threads` list and the `visualManager`
  back-reference of each philosopher.
- Philosophers.Philosopher.PickUpForks: the announcements go to the
  `announced` result rather than into `updateState` between the takes. The
  manager's `UpdateState` models what each announcement does.
- Protocol.PickUp: it uses the corrected takeForks, so on a one-seat ring it
  completes where the code as written never does. `PickUpEnabledIffAdmissible`,
  `Next`, `Run`, `ReachableIsSafe` and `PickUpOnRing` inherit this.
  `AsWrittenStepIsModelStep` shows that the code as written never reaches a
  state the corrected step does not, so the safety results still cover it.
- Philosophers.Philosopher.PickUpForks: it uses the corrected takeForks
  (a single take when both forks are the same fork), not the code as
  written. See Findings.

## Findings

| source | as written | input that shows it | evidently intended | confidence | as-written member | corrected member |
|---|---|---|---|---|---|---|
| DinningPhilosophers/Philosopher.java:72-79 | `takeForks` takes the first fork and then the second without checking that they differ. With one philosopher `initializePhilosophers` wires both to fork 0 (`(0 + 1) % 1 == 0`), so the second `take` waits on a fork its own thread holds, under the global lock that `putDownForks` needs. | two philosophers, then `removePhilosopher`; philosopher 0 becomes hungry | a lone philosopher takes its single fork once and eats | not executed | Protocol.TakeForksAsWritten, Protocol.PickUpAsWritten, Protocol.SingleSeatTakeForksBlocks | Protocol.TakeForks, Protocol.PickUp, Philosophers.Philosopher.PickUpForks |
