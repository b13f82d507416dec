/** Whole runs: the sending thread interleaved with arriving packets, acks and timeouts in any order. */
module Runs {
  import opened SendWindow
  import opened Sender

  /** One step of the sending thread, or of the thread that reads the tunnel, or of the feedback thread. */
  datatype Event =
    | Arrive(pkt: Payload)
    | Iterate(timedOut: bool, now: int, k: nat)
    | AckIn(ack: Ack, now: int)
    | TimeOut(now: int)

  /** The environment: packets fit a slot, and acks are well formed and cover only packets sent. */
  predicate CanHappen(s: System, e: Event)
  {
    match e
    case Arrive(pkt) => FitsSlot(pkt)
    case Iterate(timedOut, _, k) => CanStep(s, timedOut, k)
    case AckIn(ack, _) => ack.WellFormed() && ack.endSeq <= s.win.sent <= |s.win.log| == |s.win.fate|
    case TimeOut(_) => s.win.head <= s.win.sent <= |s.win.log| == |s.win.fate|
  }

  function After(s: System, e: Event, cfg: Config): System
    requires CanHappen(s, e)
  {
    match e
    case Arrive(pkt) => s.(win := Enqueue(s.win, pkt, cfg))
    case Iterate(timedOut, now, k) => SendStep(s, timedOut, now, k)
    case AckIn(ack, now) => s.(win := AckStep(s.win, ack, now, cfg))
    case TimeOut(now) => s.(win := TimeOutStep(s.win, now, cfg))
  }

  ghost predicate IsRun(states: seq<System>, events: seq<Event>, cfg: Config)
  {
    && |states| == |events| + 1 && states[0] == FIRST_SYSTEM
    && forall t | 0 <= t < |events| ::
        CanHappen(states[t], events[t]) && states[t + 1] == After(states[t], events[t], cfg)
  }

  lemma RunLength(states: seq<System>, events: seq<Event>, cfg: Config)
    requires IsRun(states, events, cfg)
    ensures |states| == |events| + 1
  {}

  /** A run goes on with any event that can happen next. */
  lemma RunGrows(states: seq<System>, events: seq<Event>, cfg: Config, e: Event)
    requires IsRun(states, events, cfg) && CanHappen(states[|events|], e)
    ensures IsRun(states + [After(states[|events|], e, cfg)], events + [e], cfg)
  {
    hide After, CanHappen;
    var states', events' := states + [After(states[|events|], e, cfg)], events + [e];
    forall t | 0 <= t < |events'|
      ensures CanHappen(states'[t], events'[t]) && states'[t + 1] == After(states'[t], events'[t], cfg)
    {
      if t < |events| { assert states'[t] == states[t] && events'[t] == events[t]; }
    }
  }

  // ---------------------------------------------------------------------------------
  // The invariant holds in every reachable state
  // ---------------------------------------------------------------------------------

  lemma AfterInv(s: System, e: Event, cfg: Config)
    requires SysInv(s, cfg) && CanHappen(s, e)
    ensures SysInv(After(s, e, cfg), cfg)
  {
    hide SysInv, Inv, CanStep, SendStep, Enqueue, Reclaim;
    match e
    case Arrive(pkt) => ArriveInv(s, pkt, cfg);
    case Iterate(timedOut, now, k) => SendStepInv(s, timedOut, now, k, cfg);
    case AckIn(ack, now) =>
      SysWindow(s, cfg);
      AckInv(s.win, ack, now, cfg);
      AckKeeps(s.win, ack, now, cfg);
      OtherThreadInv(s, AckStep(s.win, ack, now, cfg), cfg);
    case TimeOut(now) =>
      SysWindow(s, cfg);
      TimeOutInv(s.win, now, cfg);
      TimeOutKeeps(s.win, now, cfg);
      OtherThreadInv(s, TimeOutStep(s.win, now, cfg), cfg);
  }

  lemma SysWindow(s: System, cfg: Config)
    requires SysInv(s, cfg)
    ensures Inv(s.win, cfg) && Pointers(s.win)
  {}

  /** Acks and timeouts touch neither the accepted packets nor the counts of hand-outs. */
  lemma AckKeeps(s: State, ack: Ack, now: int, cfg: Config)
    requires ack.endSeq <= |s.log| == |s.fate|
    ensures var r := AckStep(s, ack, now, cfg);
      r.sent == s.sent && r.accepted == s.accepted && r.handed == s.handed && |r.log| == |s.log| && r.head >= s.head
    ensures AckStep(s, ack, now, cfg).fate == if ack.endSeq <= s.head then s.fate else AckedFates(s, ack)
  {}

  lemma TimeOutKeeps(s: State, now: int, cfg: Config)
    requires s.head <= s.sent <= |s.log| == |s.fate|
    ensures var r := TimeOutStep(s, now, cfg);
      r.sent == s.sent && r.accepted == s.accepted && r.handed == s.handed && |r.log| == |s.log| && r.head >= s.head
    ensures TimeOutStep(s, now, cfg).fate == TimedOutFates(s)
  {}

  lemma {:induction false} RunInv(states: seq<System>, events: seq<Event>, cfg: Config, t: nat)
    requires IsRun(states, events, cfg) && t <= |events|
    ensures SysInv(states[t], cfg)
  {
    hide SysInv, CanHappen, After;
    if t == 0 {
      FirstInv(cfg);
    } else {
      RunInv(states, events, cfg, t - 1);
      AfterInv(states[t - 1], events[t - 1], cfg);
    }
  }

  /**
   In every run the sending thread can make its next iteration once its wait is over, but for two
   cases: the packet to be sent for the first time is empty, or it opens a batch of size 0.
  */
  lemma RunCanStep(states: seq<System>, events: seq<Event>, cfg: Config, timedOut: bool, now: int, k: nat)
    requires IsRun(states, events, cfg) && k <= MAX_BATCH_SIZE
    ensures var s := states[|events|];
      && s.win.sent <= |s.win.log| == |s.win.accepted|
      && (CanHappen(s, Iterate(timedOut, now, k)) <==>
            (s.tx.pc.HandleNewPkt? && !timedOut ==>
               s.win.curr < s.win.Tail()
               && (s.win.curr == s.win.sent ==> s.win.accepted[s.win.sent] != [] && (s.tx.cnt == 0 ==> k >= 1))))
  {
    hide SysInv, After, CanStep;
    var s := states[|events|];
    RunInv(states, events, cfg, |events|);
    SysWindow(s, cfg);
    if s.tx.pc.HandleNewPkt? && !timedOut && s.win.curr >= s.win.Tail() {
      NothingToDequeue(s, k);
    } else {
      CanStepExactly(s, timedOut, k, cfg);
    }
  }

  lemma NothingToDequeue(s: System, k: nat)
    requires s.tx.pc.HandleNewPkt? && s.win.curr >= s.win.Tail()
    ensures !CanStep(s, false, k)
  {}

  /** An empty packet that arrives first stops the program. */
  lemma EmptyPacketStops(cfg: Config, now: int, k: nat)
    ensures CanHappen(FIRST_SYSTEM, Arrive([]))
    ensures var s := After(FIRST_SYSTEM, Arrive([]), cfg);
      && IsRun([FIRST_SYSTEM, s], [Arrive([])], cfg)
      && s.win.curr < s.win.Tail() && !CanHappen(s, Iterate(false, now, k))
  {
    hide Overlay, Leftover;
    Arrives([], cfg);
  }

  /** So does a batch of size 0; with size 1 the same packet is sent. */
  lemma EmptyBatchStops(cfg: Config, now: int)
    ensures CanHappen(FIRST_SYSTEM, Arrive([1]))
    ensures var s := After(FIRST_SYSTEM, Arrive([1]), cfg);
      && IsRun([FIRST_SYSTEM, s], [Arrive([1])], cfg)
      && !CanHappen(s, Iterate(false, now, 0)) && CanHappen(s, Iterate(false, now, 1))
  {
    hide Leftover;
    Arrives([1], cfg);
  }

  lemma Arrives(pkt: Payload, cfg: Config)
    requires FitsSlot(pkt)
    ensures var s := After(FIRST_SYSTEM, Arrive(pkt), cfg);
      && s == System(Enqueue(START, pkt, cfg), FIRST_THREAD, [])
      && s.win.curr == 0 && s.win.log == [NewSlot(0, pkt, cfg, Leftover([], 0, cfg))] && |s.win.handed| == 1
      && s.win.accepted == [pkt]
  {
    hide Enqueue;
    EnqueueFirst(START, pkt, cfg);
  }

  lemma EnqueueFirst(s: State, pkt: Payload, cfg: Config)
    requires s.log == [] && s.accepted == [] && s.handed == []
    ensures var s' := Enqueue(s, pkt, cfg);
      && s'.curr == s.curr && s'.log == [NewSlot(0, pkt, cfg, Leftover([], 0, cfg))] && |s'.handed| == 1
      && s'.accepted == [pkt]
  {
    hide NewSlot, Leftover;
  }

  // ---------------------------------------------------------------------------------
  // History only grows, and a decided fate is final
  // ---------------------------------------------------------------------------------

  ghost predicate Later(s: System, s': System)
  {
    && s.win.accepted <= s'.win.accepted && s.batches <= s'.batches
    && s.win.head <= s'.win.head && s.win.sent <= s'.win.sent
    && |s.win.handed| == |s.win.fate| == |s.win.accepted| && |s'.win.handed| == |s'.win.fate| == |s'.win.accepted|
    && (forall i | 0 <= i < |s.win.handed| :: s.win.handed[i] <= s'.win.handed[i])
    && forall i | 0 <= i < |s.win.fate| :: s.win.fate[i].Held? || s.win.fate[i] == s'.win.fate[i]
  }

  lemma SendStepLater(s: System, timedOut: bool, now: int, k: nat, cfg: Config)
    requires CanStep(s, timedOut, k) && Pointers(s.win)
    ensures Later(s, SendStep(s, timedOut, now, k))
  {
    hide AddNew, TakeSlot, StepRetransmission;
  }

  lemma AckLater(s: System, ack: Ack, now: int, cfg: Config)
    requires Inv(s.win, cfg) && ack.endSeq <= s.win.sent && ack.endSeq <= |s.win.log| == |s.win.fate|
    ensures Later(s, s.(win := AckStep(s.win, ack, now, cfg)))
  {
    hide SlotFits, RingBytes, Reclaim, AckedLog, Placed, AckStep;
    AckKeeps(s.win, ack, now, cfg);
    forall i | 0 <= i < |s.win.fate| ensures s.win.fate[i].Held? || s.win.fate[i] == AckedFates(s.win, ack)[i] {
      FateIsHeld(s.win, i, cfg);
    }
  }

  lemma TimeOutLater(s: System, now: int, cfg: Config)
    requires Inv(s.win, cfg) && s.win.head <= s.win.sent <= |s.win.log| == |s.win.fate|
    ensures Later(s, s.(win := TimeOutStep(s.win, now, cfg)))
  {
    hide SlotFits, RingBytes, Reclaim, TimedOutLog, Placed, TimeOutStep;
    TimeOutKeeps(s.win, now, cfg);
    forall i | 0 <= i < |s.win.fate| ensures s.win.fate[i].Held? || s.win.fate[i] == TimedOutFates(s.win)[i] {
      FateIsHeld(s.win, i, cfg);
    }
  }

  lemma FateIsHeld(s: State, i: nat, cfg: Config)
    requires Inv(s, cfg) && i < |s.log|
    ensures |s.log| == |s.fate| && (s.fate[i].Held? <==> !s.log[i].status.Empty?)
  {
    hide RingBytes;
    assert SlotOk(s, i, cfg);
  }

  lemma AfterLater(s: System, e: Event, cfg: Config)
    requires SysInv(s, cfg) && CanHappen(s, e)
    ensures Later(s, After(s, e, cfg))
  {
    hide Inv, SendStep, AckStep, TimeOutStep, CanStep, ThreadOk, Accounted, Complete, Later;
    SysWindow(s, cfg);
    match e
    case Arrive(pkt) => EnqueueLater(s, pkt, cfg);
    case Iterate(timedOut, now, k) => SendStepLater(s, timedOut, now, k, cfg);
    case AckIn(ack, now) => AckLater(s, ack, now, cfg);
    case TimeOut(now) => TimeOutLater(s, now, cfg);
  }

  lemma EnqueueLater(s: System, pkt: Payload, cfg: Config)
    requires Pointers(s.win)
    ensures Later(s, s.(win := Enqueue(s.win, pkt, cfg)))
  {
    hide NewSlot, Leftover;
  }

  lemma LaterTransitive(a: System, b: System, c: System)
    requires Later(a, b) && Later(b, c)
    ensures Later(a, c)
  {}

  /** Along a run nothing recorded is ever taken back. */
  lemma {:induction false} HistoryIsFinal(states: seq<System>, events: seq<Event>, cfg: Config, t: nat, u: nat)
    requires IsRun(states, events, cfg) && t <= u <= |events|
    ensures Later(states[t], states[u])
  {
    hide SysInv, CanHappen, After, Later;
    RunInv(states, events, cfg, t);
    if t == u {
      LaterSelf(states[t], cfg);
    } else {
      RunInv(states, events, cfg, u - 1);
      HistoryIsFinal(states, events, cfg, t, u - 1);
      AfterLater(states[u - 1], events[u - 1], cfg);
      LaterTransitive(states[t], states[u - 1], states[u]);
    }
  }

  lemma LaterSelf(s: System, cfg: Config)
    requires SysInv(s, cfg)
    ensures Later(s, s)
  {
    hide SlotOk;
  }

  // ---------------------------------------------------------------------------------
  // What became of each packet
  // ---------------------------------------------------------------------------------

  /** Step t took packet i out of the buffer because an ack reported it. */
  ghost predicate Acknowledged(states: seq<System>, events: seq<Event>, t: nat, i: nat, ack: Ack)
    requires t < |events| == |states| - 1
  {
    && events[t].AckIn? && events[t].ack == ack && ack.WellFormed() && ack.Reports(i + 1)
    && ack.endSeq <= states[t].win.sent && i < |states[t].win.fate| && states[t].win.fate[i].Held?
  }

  /** Step t gave packet i up: an ack listed it as missing or a timeout fired, with no retries left. */
  ghost predicate Abandoned(states: seq<System>, events: seq<Event>, t: nat, i: nat)
    requires t < |events| == |states| - 1
  {
    && i < |states[t].win.log| && states[t].win.log[i].status.OccupiedOutbound? && states[t].win.log[i].retries == 0
    && (events[t].TimeOut? || (events[t].AckIn? && i + 1 in events[t].ack.nacks))
  }

  /** A fate changes from Held only by an ack that reports the packet, or by giving it up. */
  lemma StepDecides(s: System, e: Event, cfg: Config, i: nat)
    requires SysInv(s, cfg) && CanHappen(s, e) && i < |s.win.fate|
    requires |s.win.fate| <= |After(s, e, cfg).win.fate|
    requires s.win.fate[i].Held? && !After(s, e, cfg).win.fate[i].Held?
    ensures match After(s, e, cfg).win.fate[i]
      case Received(ack) => e.AckIn? && e.ack == ack && ack.Reports(i + 1)
      case GivenUp => |s.win.log| == |s.win.fate| && s.win.log[i].status.OccupiedOutbound? && s.win.log[i].retries == 0
                      && (e.TimeOut? || (e.AckIn? && i + 1 in e.ack.nacks))
      case Held => false
  {
    hide Inv, SendStep, ThreadOk, Accounted, Complete, AckStep, TimeOutStep;
    SysWindow(s, cfg);
    match e
    case Arrive(pkt) =>
    case Iterate(timedOut, now, k) => SendKeepsFate(s, timedOut, now, k);
    case AckIn(ack, now) => AckKeeps(s.win, ack, now, cfg);
    case TimeOut(now) => TimeOutKeeps(s.win, now, cfg);
  }

  lemma SendKeepsFate(s: System, timedOut: bool, now: int, k: nat)
    requires CanStep(s, timedOut, k)
    ensures SendStep(s, timedOut, now, k).win.fate == s.win.fate
  {}

  lemma {:induction false} FateHasCause(states: seq<System>, events: seq<Event>, cfg: Config, u: nat, i: nat)
    requires IsRun(states, events, cfg) && u <= |events| && i < |states[u].win.fate| && !states[u].win.fate[i].Held?
    ensures match states[u].win.fate[i]
      case Received(ack) => exists t | 0 <= t < u :: Acknowledged(states, events, t, i, ack)
      case GivenUp => exists t | 0 <= t < u :: Abandoned(states, events, t, i)
      case Held => true
  {
    hide SysInv, After, Inv;
    if u > 0 {
      var s, e := states[u - 1], events[u - 1];
      RunInv(states, events, cfg, u - 1);
      AfterLater(s, e, cfg);
      NewcomersAreHeld(s, e, cfg);
      if i < |s.win.fate| && !s.win.fate[i].Held? {
        FateHasCause(states, events, cfg, u - 1, i);
      } else {
        StepDecides(s, e, cfg, i);
        match states[u].win.fate[i]
        case Received(ack) => assert Acknowledged(states, events, u - 1, i, ack);
        case GivenUp => assert Abandoned(states, events, u - 1, i);
      }
    }
  }

  lemma NewcomersAreHeld(s: System, e: Event, cfg: Config)
    requires SysInv(s, cfg) && CanHappen(s, e)
    ensures forall i | |s.win.fate| <= i < |After(s, e, cfg).win.fate| :: After(s, e, cfg).win.fate[i].Held?
  {
    hide Inv, SendStep, ThreadOk, Accounted, Complete, AckStep, TimeOutStep;
    SysWindow(s, cfg);
    match e
    case Arrive(pkt) =>
    case Iterate(timedOut, now, k) => SendKeepsFate(s, timedOut, now, k);
    case AckIn(ack, now) => AckKeeps(s.win, ack, now, cfg);
    case TimeOut(now) => TimeOutKeeps(s.win, now, cfg);
  }

  /** An ack settles exactly the held packets in its range that it does not list as missing. */
  lemma AckDecides(s: State, ack: Ack, now: int, cfg: Config, i: nat)
    requires Inv(s, cfg) && ack.WellFormed() && ack.endSeq <= s.sent && i < |s.log|
    ensures ack.endSeq <= |s.log| == |s.fate| == |AckStep(s, ack, now, cfg).fate|
    ensures s.fate[i].Held? ==> (AckStep(s, ack, now, cfg).fate[i] == Received(ack) <==> ack.Reports(i + 1))
    ensures s.fate[i].Held? && i + 1 in ack.nacks ==>
              (AckStep(s, ack, now, cfg).fate[i] == GivenUp <==>
                s.log[i].status.OccupiedOutbound? && s.log[i].retries == 0)
    ensures !s.fate[i].Held? || i >= ack.endSeq ==> AckStep(s, ack, now, cfg).fate[i] == s.fate[i]
  {
    hide RingBytes, AckStep, AckedLog, Reclaim;
    AckKeeps(s, ack, now, cfg);
    assert SlotOk(s, i, cfg);
  }

  // ---------------------------------------------------------------------------------
  // How often each packet is handed out
  // ---------------------------------------------------------------------------------

  predicate HandsOut(s: System, e: Event, i: nat)
  {
    && e.Iterate? && !e.timedOut && s.tx.pc.HandleNewPkt?
    && s.win.curr == i < |s.win.log| && s.win.log[i].Pending()
  }

  function HandOuts(states: seq<System>, events: seq<Event>, i: nat): nat
    requires |states| == |events| + 1
  {
    if events == [] then 0
    else
      var n := |events| - 1;
      HandOuts(states[..n + 1], events[..n], i) + if HandsOut(states[n], events[n], i) then 1 else 0
  }

  lemma StepCounts(s: System, e: Event, cfg: Config, i: nat)
    requires SysInv(s, cfg) && CanHappen(s, e) && i < |s.win.handed|
    ensures i < |After(s, e, cfg).win.handed|
    ensures After(s, e, cfg).win.handed[i] == s.win.handed[i] + if HandsOut(s, e, i) then 1 else 0
  {
    hide Inv, ThreadOk, Accounted, Complete, AckStep, TimeOutStep, TakeSlot, StepRetransmission;
    SysWindow(s, cfg);
    match e
    case Arrive(pkt) =>
    case Iterate(timedOut, now, k) =>
    case AckIn(ack, now) => AckKeeps(s.win, ack, now, cfg);
    case TimeOut(now) => TimeOutKeeps(s.win, now, cfg);
  }

  /** A packet that was not accepted before the step starts without hand-outs, and was never handed out. */
  lemma NewcomersAreFresh(s: System, e: Event, cfg: Config, i: nat)
    requires SysInv(s, cfg) && CanHappen(s, e) && i >= |s.win.handed|
    ensures !HandsOut(s, e, i)
    ensures i < |After(s, e, cfg).win.handed| ==> After(s, e, cfg).win.handed[i] == 0
  {
    hide Inv, ThreadOk, Accounted, Complete, AckStep, TimeOutStep, TakeSlot, StepRetransmission;
    SysWindow(s, cfg);
    match e
    case Arrive(pkt) =>
    case Iterate(timedOut, now, k) =>
    case AckIn(ack, now) => AckKeeps(s.win, ack, now, cfg);
    case TimeOut(now) => TimeOutKeeps(s.win, now, cfg);
  }

  lemma {:induction false} HandOutsCounted(states: seq<System>, events: seq<Event>, cfg: Config, i: nat)
    requires IsRun(states, events, cfg)
    ensures HandOuts(states, events, i) ==
        if i < |states[|events|].win.handed| then states[|events|].win.handed[i] else 0
  {
    hide SysInv, After, HandsOut, CanHappen;
    var n := |events|;
    if n > 0 {
      RunInv(states, events, cfg, n - 1);
      HandOutsCounted(states[..n], events[..n - 1], cfg, i);
      var s, e := states[n - 1], events[n - 1];
      assert states[..n][n - 1] == s;
      if i < |s.win.handed| {
        StepCounts(s, e, cfg, i);
      } else {
        NewcomersAreFresh(s, e, cfg, i);
      }
    }
  }

  /**
   The life of packet i in every run: it is still in the buffer, or an ack of this run reported
   it, or it was handed out retrans + 1 times and then given up; it was never handed out more
   often than that, and every hand-out is in exactly one batch unless it is still in progress.
  */
  lemma PacketStory(states: seq<System>, events: seq<Event>, cfg: Config, i: nat)
    requires IsRun(states, events, cfg) && i < |states[|events|].win.accepted|
    ensures var n := |events|; var s := states[n];
      && i < |s.win.fate| && i < |s.win.log|
      && HandOuts(states, events, i) <= cfg.retrans + 1
      && HandOuts(states, events, i) == TakenOut(s.batches, s.tx)[i + 1]
      && match s.win.fate[i]
         case Held => s.win.head <= i && !s.win.log[i].status.Empty?
         case Received(ack) => exists t | 0 <= t < n :: Acknowledged(states, events, t, i, ack)
         case GivenUp => HandOuts(states, events, i) == cfg.retrans + 1
                         && exists t | 0 <= t < n :: Abandoned(states, events, t, i)
  {
    hide After, CanHappen, RingBytes, Complete, ThreadOk, TakenOut, HandOuts, Acknowledged, Abandoned;
    var n := |events|;
    RunInv(states, events, cfg, n);
    HandOutsCounted(states, events, cfg, i);
    assert SlotOk(states[n].win, i, cfg);
    if !states[n].win.fate[i].Held? {
      FateHasCause(states, events, cfg, n, i);
    }
  }
}
