/**
 EnqueuePkt with several producers. A producer reads the tail to number its packet before it
 takes the queue lock, and the slot is chosen under the lock; in between, others may store.
*/
module TailRace {
  /** numbers[i] is the sequence number in the i-th slot ever filled; ready holds what each producer inside has read. */
  datatype State = State(numbers: seq<nat>, ready: map<nat, nat>)

  /** full tells whether the ring was full, so that the packet was dropped. */
  datatype Step = Read(p: nat) | Store(p: nat, full: bool)

  predicate Enabled(s: State, step: Step)
  {
    match step
    case Read(p) => p !in s.ready
    case Store(p, _) => p in s.ready
  }

  function Next(s: State, step: Step): State
    requires Enabled(s, step)
  {
    match step
    case Read(p) => s.(ready := s.ready[p := |s.numbers| + 1])
    case Store(p, full) =>
      State(if full then s.numbers else s.numbers + [s.ready[p]], s.ready - {p})
  }

  const START: State := State([], map[])

  ghost predicate IsRun(states: seq<State>, steps: seq<Step>)
  {
    && |states| == |steps| + 1 && states[0] == START
    && forall t | 0 <= t < |steps| :: Enabled(states[t], steps[t]) && states[t + 1] == Next(states[t], steps[t])
  }

  predicate Stores(step: Step) { step.Store? && !step.full }

  /** Producer p, inside at time t, read the tail at time u. */
  ghost predicate ReadAt(states: seq<State>, steps: seq<Step>, p: nat, u: nat, t: nat)
    requires t <= |steps| < |states|
  {
    && u < t && steps[u] == Read(p) && (forall v | u < v < t :: steps[v].p != p)
    && p in states[t].ready && states[t].ready[p] == |states[u].numbers| + 1
  }

  lemma {:induction false} InsideHasRead(states: seq<State>, steps: seq<Step>, p: nat, t: nat) returns (u: nat)
    requires IsRun(states, steps) && t <= |steps| && p in states[t].ready
    ensures ReadAt(states, steps, p, u, t)
  {
    if steps[t - 1] == Read(p) {
      u := t - 1;
    } else {
      assert steps[t - 1].p != p;
      u := InsideHasRead(states, steps, p, t - 1);
    }
  }

  /** The tail stays where it is exactly as long as nobody stores. */
  lemma {:induction false} TailMoves(states: seq<State>, steps: seq<Step>, u: nat, t: nat)
    requires IsRun(states, steps) && u <= t <= |steps|
    ensures states[u].numbers <= states[t].numbers
    ensures |states[u].numbers| == |states[t].numbers| <==> forall v | u <= v < t :: !Stores(steps[v])
    decreases t
  {
    if u < t {
      TailMoves(states, steps, u, t - 1);
    }
  }

  /**
   A packet gets the number of its slot if and only if nobody else stored one between the moment
   its producer read the tail and the moment it took the lock.
  */
  lemma NumberedRight(states: seq<State>, steps: seq<Step>, t: nat) returns (u: nat)
    requires IsRun(states, steps) && t < |steps| && Stores(steps[t])
    ensures ReadAt(states, steps, steps[t].p, u, t)
    ensures var i := |states[t].numbers|;
      && |states[t + 1].numbers| == i + 1 && states[t + 1].numbers[i] <= i + 1
      && (states[t + 1].numbers[i] == i + 1 <==> forall v | u < v < t :: !Stores(steps[v]))
  {
    u := InsideHasRead(states, steps, steps[t].p, t);
    TailMoves(states, steps, u, t);
    assert !Stores(steps[u]);
  }

  predicate InOrder(numbers: seq<nat>) { forall i | 0 <= i < |numbers| :: numbers[i] == i + 1 }

  /** A single producer always numbers its packets right, so for it the call is one atomic step. */
  lemma {:induction false} OneProducer(states: seq<State>, steps: seq<Step>, p: nat, t: nat)
    requires IsRun(states, steps) && t <= |steps| && forall v | 0 <= v < |steps| :: steps[v].p == p
    ensures InOrder(states[t].numbers)
    ensures forall q | q in states[t].ready :: q == p && states[t].ready[q] == |states[t].numbers| + 1
  {
    if t > 0 {
      OneProducer(states, steps, p, t - 1);
    }
  }

  /** Two producers that read the tail together give two packets the same number. */
  lemma TwoPacketsWithOneNumber() returns (states: seq<State>, steps: seq<Step>)
    ensures IsRun(states, steps) && steps == [Read(0), Read(1), Store(0, false), Store(1, false)]
    ensures states[4].numbers == [1, 1]
  {
    steps := [Read(0), Read(1), Store(0, false), Store(1, false)];
    states := [START, State([], map[0 := 1]), State([], map[0 := 1, 1 := 1]), State([1], map[1 := 1]),
               State([1, 1], map[])];
  }
}
