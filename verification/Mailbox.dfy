/**
 AckContext: a one-slot mailbox between the thread that receives acks and the thread that
 handles them, with one lock and two condition variables. Every step below is one critical
 section: from taking the lock to releasing it or to falling asleep on a condition variable.
*/
module Mailbox {
  /** The thread in RcvAck: outside, contending for the lock with an ack in hand, or waiting for an empty slot. */
  datatype Producer<A> = Idle | Entering(ack: A) | WaitEmpty(ack: A)

  /** The thread in TxHandleAck; Expired contends for the lock after its wait timed out. */
  datatype Consumer = Handling | Looking | WaitFill | Expired

  /** offered, deposited and consumed are history; missed counts the calls that returned without an ack. */
  datatype State<A> = State(
    slot: seq<A>, producer: Producer<A>, consumer: Consumer,
    offered: seq<A>, deposited: seq<A>, consumed: seq<A>, missed: nat)

  datatype Step<A> = Offer(ack: A) | Enter | WakeProducer | Look | Take | WakeConsumer | Expire | GiveUp

  function SignalEmpty<A>(p: Producer<A>): Producer<A> { if p.WaitEmpty? then Entering(p.ack) else p }

  function SignalFill(c: Consumer): Consumer { if c.WaitFill? then Looking else c }

  /** timed: data acks are waited for with a timeout, raw acks without. Wake steps may also be spurious. */
  predicate Enabled<A>(s: State<A>, step: Step<A>, timed: bool)
  {
    match step
    case Offer(_) => s.producer.Idle?
    case Enter => s.producer.Entering?
    case WakeProducer => s.producer.WaitEmpty?
    case Look => s.consumer.Handling?
    case Take => s.consumer.Looking?
    case WakeConsumer => s.consumer.WaitFill?
    case Expire => timed && s.consumer.WaitFill?
    case GiveUp => s.consumer.Expired?
  }

  /** The end of TxHandleAck: whatever is in the slot is taken, and the producer is signalled. */
  function Leave<A>(s: State<A>): State<A>
  {
    s.(slot := [], consumed := s.consumed + s.slot, missed := if s.slot == [] then s.missed + 1 else s.missed,
       producer := SignalEmpty(s.producer), consumer := Handling)
  }

  function Next<A>(s: State<A>, step: Step<A>, timed: bool): State<A>
    requires Enabled(s, step, timed)
  {
    match step
    case Offer(ack) => s.(producer := Entering(ack), offered := s.offered + [ack])
    case Enter =>
      var consumer := SignalFill(s.consumer);
      if s.slot != [] then s.(producer := WaitEmpty(s.producer.ack), consumer := consumer)
      else s.(slot := [s.producer.ack], producer := Idle, consumer := consumer,
              deposited := s.deposited + [s.producer.ack])
    case WakeProducer => s.(producer := Entering(s.producer.ack))
    case Look => s.(consumer := Looking)
    case Take => if s.slot == [] then s.(consumer := WaitFill) else Leave(s)
    case WakeConsumer => s.(consumer := Looking)
    case Expire => s.(consumer := Expired)
    case GiveUp => Leave(s)
  }

  function InHand<A>(p: Producer<A>): seq<A> { if p.Idle? then [] else [p.ack] }

  /** Nothing is lost, repeated or reordered, and a sleeping thread sleeps for a reason. */
  predicate Inv<A(==)>(s: State<A>)
  {
    && |s.slot| <= 1
    && s.deposited == s.consumed + s.slot
    && s.offered == s.deposited + InHand(s.producer)
    && (s.producer.WaitEmpty? ==> s.slot != [])
    && (s.consumer.WaitFill? ==> s.slot == [])
  }

  function Start<A>(): State<A> { State([], Idle, Handling, [], [], [], 0) }

  ghost predicate IsRun<A(!new)>(states: seq<State<A>>, steps: seq<Step<A>>, timed: bool)
  {
    && |states| == |steps| + 1 && states[0] == Start()
    && forall t | 0 <= t < |steps| ::
        Enabled(states[t], steps[t], timed) && states[t + 1] == Next(states[t], steps[t], timed)
  }

  lemma NextInv<A>(s: State<A>, step: Step<A>, timed: bool)
    requires Inv(s) && Enabled(s, step, timed)
    ensures Inv(Next(s, step, timed))
  {}

  lemma {:induction false} RunInv<A(!new)>(states: seq<State<A>>, steps: seq<Step<A>>, timed: bool, t: nat)
    requires IsRun(states, steps, timed) && t <= |steps|
    ensures Inv(states[t])
  {
    if t > 0 {
      RunInv(states, steps, timed, t - 1);
      NextInv(states[t - 1], steps[t - 1], timed);
    }
  }

  /**
   In every interleaving the acks handled are a prefix of the acks deposited, with at most one
   outstanding, the deposited ones are a prefix of those received, and the two threads are never
   both asleep.
  */
  lemma MailboxIsFifo<A(!new)>(states: seq<State<A>>, steps: seq<Step<A>>, timed: bool)
    requires IsRun(states, steps, timed)
    ensures var s := states[|steps|];
      && s.consumed <= s.deposited <= s.offered
      && |s.deposited| <= |s.consumed| + 1 && |s.offered| <= |s.deposited| + 1
      && !(s.producer.WaitEmpty? && s.consumer.WaitFill?)
  {
    RunInv(states, steps, timed, |steps|);
  }

  /** A producer that sleeps is woken by the consumer's next pass, which takes the ack it waits behind. */
  lemma ConsumerFreesProducer<A>(s: State<A>, timed: bool)
    requires Inv(s) && s.producer.WaitEmpty?
    ensures s.consumer.Handling? || s.consumer.Looking? || s.consumer.Expired?
    ensures s.consumer.Handling? ==> Enabled(s, Look, timed) && Next(s, Look, timed).consumer.Looking?
    ensures s.consumer.Looking? || s.consumer.Expired? ==>
              var step: Step<A> := if s.consumer.Looking? then Take else GiveUp;
              && Enabled(s, step, timed)
              && var s' := Next(s, step, timed);
                 && s'.consumed == s.consumed + s.slot && |s.slot| == 1 && s'.producer == Entering(s.producer.ack)
                 && var s'' := Next(s', Enter, timed);
                    s''.deposited == s.deposited + [s.producer.ack] && s''.producer.Idle?
  {}

  /** A consumer that sleeps is woken by the producer's next deposit, which it then takes. */
  lemma ProducerFreesConsumer<A>(s: State<A>, timed: bool)
    requires Inv(s) && s.consumer.WaitFill? && !s.producer.Idle?
    ensures s.producer.Entering?
    ensures var s' := Next(s, Enter, timed);
      && s'.consumer.Looking? && s'.producer.Idle?
      && Next(s', Take, timed).consumed == s.consumed + [s.producer.ack] && Next(s', Take, timed).consumer.Handling?
  {}

  /** A call returns without an ack only if its wait timed out and the slot was still empty. */
  lemma MissOnlyOnTimeOut<A>(s: State<A>, step: Step<A>, timed: bool)
    requires Inv(s) && Enabled(s, step, timed)
    ensures Next(s, step, timed).missed == s.missed + if step.GiveUp? && s.slot == [] then 1 else 0
    ensures !timed && !s.consumer.Expired? ==> !step.GiveUp? && !Next(s, step, timed).consumer.Expired?
  {}

  /** The waits of a run that timed out over an empty slot. */
  ghost function Misses<A>(states: seq<State<A>>, steps: seq<Step<A>>): nat
    requires |states| == |steps| + 1
  {
    if steps == [] then 0
    else
      var n := |steps| - 1;
      Misses(states[..n + 1], steps[..n]) + if steps[n].GiveUp? && states[n].slot == [] then 1 else 0
  }

  /** In every run the calls that returned without an ack are exactly those. */
  lemma {:induction false} MissesCounted<A(!new)>(states: seq<State<A>>, steps: seq<Step<A>>, timed: bool)
    requires IsRun(states, steps, timed)
    ensures states[|steps|].missed == Misses(states, steps)
  {
    hide Inv;
    var n := |steps|;
    if n > 0 {
      RunInv(states, steps, timed, n - 1);
      MissesCounted(states[..n], steps[..n - 1], timed);
      MissOnlyOnTimeOut(states[n - 1], steps[n - 1], timed);
      assert states[..n][n - 1] == states[n - 1];
    }
  }

  /** Without a timeout every call in every run returns with an ack. */
  lemma {:induction false} RawAcksNeverMiss<A(!new)>(states: seq<State<A>>, steps: seq<Step<A>>, t: nat)
    requires IsRun(states, steps, false) && t <= |steps|
    ensures states[t].missed == 0 && !states[t].consumer.Expired?
  {
    hide Inv;
    if t > 0 {
      RunInv(states, steps, false, t - 1);
      RawAcksNeverMiss(states, steps, t - 1);
      MissOnlyOnTimeOut(states[t - 1], steps[t - 1], false);
    }
  }
}
