/**
 The threads of one client on one shared buffer. Each method is one atomic step of one thread,
 and whatever order they are called in, the history they leave is a run of the state machine.
*/
module Endpoint {
  import Gf
  import opened BatchCodec
  import opened SendWindow
  import opened TxBuffer
  import opened Sender
  import opened SendThread
  import opened Feedback
  import opened Runs
  import ScoutRate

  class Client {
    const buf: TxDataBuf
    const sender: TxSendAth
    const context: ClientContext
    ghost var states: seq<System>
    ghost var events: seq<Event>

    ghost predicate Shared()
      reads sender.encoder.original, sender.encoder.coded
    {
      && sender.buf == buf && context.buf == buf && this !in sender.encoder.Writable()
      && sender.encoder.original !in sender.encoder.Writable() && sender.encoder.coded !in sender.encoder.Writable()
    }

    ghost predicate Valid()
      reads this, sender, buf, buf.slots, sender.rateMaker
      reads sender.buf, sender.buf.slots
      reads sender.encoder, sender.encoder.lens, sender.encoder.original, sender.encoder.coded
      reads sender.encoder.original[..]
    {
      && Shared() && sender.Valid()
      && IsRun(states, events, buf.cfg) && states[|events|] == sender.Model()
    }

    constructor (cfg: Config, maxContiguousTimeOut: nat, version: ScoutRate.Version, enableDuplicate: bool,
                 headerSize: nat, coherenceTime: nat)
      ensures Valid() && events == [] && buf.cfg == cfg && sender.rateMaker.enableDuplicate == enableDuplicate
      ensures fresh(buf) && fresh(buf.slots) && fresh(sender) && fresh(context)
    {
      hide SysInv, SendWindow.Inv, TxSendAth.Ready, CodeInfo.Writable;
      var shared := new TxDataBuf(cfg);
      buf := shared;
      sender := new TxSendAth(shared, version, enableDuplicate, headerSize, coherenceTime);
      context := new ClientContext(shared, maxContiguousTimeOut);
      states, events := [FIRST_SYSTEM], [];
      new;
      NotWritten(sender.encoder);
    }

    lemma NotWritten(c: CodeInfo)
      ensures this !in c.Writable() && c.original !in c.Writable() && c.coded !in c.Writable()
    {}

    /** The run goes on with an event that led to the present state. */
    ghost method Record(e: Event)
      requires Shared() && sender.Valid()
      requires IsRun(states, events, buf.cfg) && CanHappen(states[|events|], e)
      requires sender.Model() == After(states[|events|], e, buf.cfg)
      modifies this`states, this`events
      ensures Valid() && events == old(events) + [e] && states == old(states) + [sender.Model()]
    {
      hide TxSendAth.Ready, SysInv, CodeInfo.Writable;
      RunGrows(states, events, buf.cfg, e);
      states, events := states + [After(states[|events|], e, buf.cfg)], events + [e];
    }

    /** A packet arrives from the tunnel. */
    method Arrive(pkt: Payload)
      requires Valid() && FitsSlot(pkt)
      modifies this`states, this`events, buf`tail, buf`model, buf.slots
      ensures Valid() && events == old(events) + [Event.Arrive(pkt)]
    {
      hide SendWindow.Inv, SysInv, IsRun, Enqueue, CodeInfo.Writable;
      hide TxSendAth.Coding, TxSendAth.Coupled, TxSendAth.Deciding, TxSendAth.OnAir, TxSendAth.Apart;
      ArriveInv(sender.Model(), pkt, buf.cfg);
      buf.EnqueuePkt(pkt);
      RunLength(states, events, buf.cfg);
      Record(Event.Arrive(pkt));
    }

    /** One iteration of the sending thread; ok tells whether the program goes on. */
    method Send(t: Gf.Tables, timedOut: bool, now: int, lookup: ScoutRate.Lookup, baseline: seq<nat>)
      returns (ok: bool, ghost k: nat)
      requires t.Valid() && Valid() && Choices(lookup, baseline)
      requires sender.state.HandleNewPkt? && !timedOut ==> !buf.IsEmpty()
      modifies this`states, this`events, sender, buf`curr, buf`model, buf.slots
      modifies sender.rateMaker, sender.encoder.Writable()
      ensures ok ==> Valid() && events == old(events) + [Iterate(timedOut, now, k)]
    {
      hide SendWindow.Inv, SysInv, IsRun, CanStep, SendStep, Choices, CodeInfo.Writable, TxSendAth.Ready;
      RunLength(states, events, buf.cfg);
      ok, k := sender.Iterate(t, timedOut, now, lookup, baseline);
      if ok {
        Record(Iterate(timedOut, now, k));
      }
    }

    /** With this timeout, the row of timeouts that found an overdue packet reaches the maximum. */
    ghost predicate TooManyTimeOuts(now: int)
      requires buf.model.sent <= |buf.model.log|
      reads context, buf
    {
      context.contiguousTimeOut + (if AnyExpired(buf.model, now, buf.cfg) then 1 else 0)
        >= context.maxContiguousTimeOut
    }

    lemma SentInLog()
      requires Valid()
      ensures buf.model.sent <= |buf.model.log|
    {
      hide SysInv, IsRun, CodeInfo.Writable, SlotOk;
      hide TxSendAth.Coding, TxSendAth.Coupled, TxSendAth.Deciding, TxSendAth.OnAir, TxSendAth.Apart;
      InvPointers(buf.model, buf.cfg);
    }

    /** The timeout handler; after too many timeouts in a row every rate counts as lost. */
    method TimeOut(now: int)
      requires Valid()
      modifies this`states, this`events, context`contiguousTimeOut, buf, buf.slots, sender.rateMaker
      ensures Valid() && events == old(events) + [Event.TimeOut(now)]
      ensures old(buf.model.sent <= |buf.model.log|)
      ensures old(TooManyTimeOuts(now)) ==>
                context.contiguousTimeOut == 0 && ScoutRate.AllLost(sender.rateMaker.lossFront)
                && ScoutRate.AllLost(sender.rateMaker.lossBack) && ScoutRate.AllLost(sender.rateMaker.lossScout)
      ensures !old(TooManyTimeOuts(now)) ==> unchanged(sender.rateMaker)
    {
      hide SendWindow.Inv, SysInv, IsRun, Reclaim, CodeInfo.Writable, ScoutRate.LossMap, ScoutRate.AllLost, AnyExpired;
      hide TxSendAth.Coding, TxSendAth.Coupled, TxSendAth.OnAir, TxSendAth.Apart;
      SentInLog();
      RunLength(states, events, buf.cfg);
      SysWindow(sender.Model(), buf.cfg);
      AfterInv(sender.Model(), Event.TimeOut(now), buf.cfg);
      var highLoss := context.HandleTimeOut(now);
      if highLoss {
        sender.rateMaker.SetHighLoss();
      }
      Record(Event.TimeOut(now));
    }

    /** What an ack adds to the run; one that is out of order changes nothing. */
    ghost function AckEvents(ackSeq: nat, ack: Ack, now: int): seq<Event>
      reads context
    {
      if ackSeq < context.expectDataAckSeq then [] else [AckIn(ack, now)]
    }

    ghost predicate DuplicatesTimeOut(ackSeq: nat, ack: Ack)
      reads context, context.buf
    {
      && ackSeq >= context.expectDataAckSeq && 1 <= ack.endSeq <= context.buf.head
      && context.dupDataAckCnt + 1 >= MAX_DUP_ACKS
    }

    /** An ack; the last of a row of duplicates asks for a timeout. */
    method Acknowledge(ackSeq: nat, ack: Ack, now: int) returns (dupAckTimeOut: bool)
      requires Valid() && ack.WellFormed() && ack.endSeq <= buf.model.sent
      modifies this`states, this`events, context, buf, buf.slots
      ensures Valid() && events == old(events) + old(AckEvents(ackSeq, ack, now))
      ensures dupAckTimeOut == old(DuplicatesTimeOut(ackSeq, ack))
    {
      hide SendWindow.Inv, SysInv, IsRun, Reclaim, CodeInfo.Writable;
      hide TxSendAth.Coding, TxSendAth.Coupled, TxSendAth.Deciding, TxSendAth.OnAir, TxSendAth.Apart;
      RunLength(states, events, buf.cfg);
      SysWindow(sender.Model(), buf.cfg);
      AfterInv(sender.Model(), AckIn(ack, now), buf.cfg);
      ghost var inOrder := ackSeq >= context.expectDataAckSeq;
      dupAckTimeOut := context.HandleDataAck(ackSeq, ack, now);
      if inOrder {
        Record(AckIn(ack, now));
      }
    }

    /**
     One iteration of the feedback thread: an ack came, or the wait for one timed out. The last of
     a row of duplicate acks counts as a timeout as well.
    */
    method HandleFeedback(available: bool, ackSeq: nat, ack: Ack, now: int)
      requires Valid() && (available ==> ack.WellFormed() && ack.endSeq <= buf.model.sent)
      modifies this`states, this`events, context, buf, buf.slots, sender.rateMaker
      ensures Valid()
      ensures events == old(events)
                        + (if available then old(AckEvents(ackSeq, ack, now)) else [])
                        + if available ==> old(DuplicatesTimeOut(ackSeq, ack)) then [Event.TimeOut(now)] else []
    {
      hide TxSendAth.Ready, SysInv, IsRun, CodeInfo.Writable;
      if available {
        var dupAckTimeOut := Acknowledge(ackSeq, ack, now);
        if dupAckTimeOut {
          TimeOut(now);
        }
      } else {
        TimeOut(now);
      }
    }
  }
}
