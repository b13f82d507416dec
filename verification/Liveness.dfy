/** Nothing is stranded: pending packets do get handed out, and the window empties even without acks. */
module Liveness {
  import opened SendWindow
  import opened Sender

  // ---------------------------------------------------------------------------------
  // Handing out everything that is pending
  // ---------------------------------------------------------------------------------

  function Drain(s: State, now: int): State
    requires |s.handed| == |s.log|
    decreases |s.log| - s.curr
  {
    if s.curr < s.Tail() then Drain(Dequeue(s, now), now) else s
  }

  /** One slot before and after draining. */
  ghost predicate Drained(s: State, d: State, i: nat)
    requires i < |s.log| == |d.log| == |s.handed| == |d.handed|
  {
    if i >= s.curr && s.log[i].Pending() then
      && d.log[i].status.OccupiedOutbound? && d.handed[i] == s.handed[i] + 1
      && d.log[i].retries == if s.log[i].status.OccupiedNew? then s.log[i].retries else s.log[i].retries - 1
    else d.log[i] == s.log[i] && d.handed[i] == s.handed[i]
  }

  lemma {:induction false} DrainVisits(s: State, now: int, cfg: Config)
    requires Inv(s, cfg)
    ensures var d := Drain(s, now);
      && Inv(d, cfg) && |d.log| == |s.log| && d.curr == d.sent == |d.log|
      && d.head == s.head && d.accepted == s.accepted && d.fate == s.fate
      && forall i | 0 <= i < |s.log| :: Drained(s, d, i)
    decreases |s.log| - s.curr
  {
    hide RingBytes, SlotFits, Placed;
    if s.curr < s.Tail() {
      var s' := Dequeue(s, now);
      DequeueInv(s, now, cfg);
      DrainVisits(s', now, cfg);
      CurrSlot(s, now, cfg);
      var d := Drain(s', now);
      forall i | 0 <= i < |s.log| ensures Drained(s, d, i) {
        assert Drained(s', d, i);
      }
    }
  }

  /** A handed-out slot is outbound, so the rest of the drain leaves it alone. */
  lemma CurrSlot(s: State, now: int, cfg: Config)
    requires Inv(s, cfg) && s.curr < s.Tail()
    ensures s.log[s.curr].Pending() ==>
              HandOut(s.log[s.curr], now).status.OccupiedOutbound? &&
              HandOut(s.log[s.curr], now).retries
                == if s.log[s.curr].status.OccupiedNew? then s.log[s.curr].retries else s.log[s.curr].retries - 1
  {
    assert SlotOk(s, s.curr, cfg);
  }

  /** Every packet waiting to be sent or resent is handed out exactly once more by a drain, and no other is. */
  lemma DrainSendsPending(s: State, now: int, cfg: Config, i: nat)
    requires Inv(s, cfg) && i < |s.log|
    ensures var d := Drain(s, now);
      && |d.log| == |d.handed| == |s.log| == |s.handed|
      && d.handed[i] == s.handed[i] + (if s.log[i].Pending() then 1 else 0)
      && !d.log[i].Pending()
  {
    hide RingBytes;
    DrainVisits(s, now, cfg);
    assert SlotOk(s, i, cfg);
    assert SlotOk(Drain(s, now), i, cfg);
    assert Drained(s, Drain(s, now), i);
  }

  /** Whether the assertions hold at every hand-out of a drain. */
  predicate DrainAsserts(s: State, now: int)
    requires |s.handed| == |s.log|
    decreases |s.log| - s.curr
  {
    s.curr < s.Tail() ==> AssertsHold(s.log[s.curr]) && DrainAsserts(Dequeue(s, now), now)
  }

  /** They do if and only if no packet still to be sent for the first time is empty. */
  lemma {:induction false} DrainAssertsExactly(s: State, now: int, cfg: Config)
    requires Inv(s, cfg) && SentWithContent(s.handed, s.accepted)
    ensures |s.accepted| == |s.handed| == |s.log|
    ensures DrainAsserts(s, now) <==> forall i | s.sent <= i < |s.log| :: s.accepted[i] != []
    decreases |s.log| - s.curr
  {
    hide Inv, AssertsHold, Dequeue;
    DrainPointers(s, cfg);
    if s.curr < s.Tail() {
      AssertsExactly(s, cfg);
      if AssertsHold(s.log[s.curr]) {
        var s' := Dequeue(s, now);
        DequeueInv(s, now, cfg);
        ContentKept(s, now, cfg);
        SentMoves(s, now, cfg);
        DrainAssertsExactly(s', now, cfg);
        assert s.curr == s.sent ==> s.accepted[s.sent] != [];
      }
    }
  }

  lemma SentMoves(s: State, now: int, cfg: Config)
    requires Inv(s, cfg) && s.curr < s.Tail()
    ensures |s.handed| == |s.log|
    ensures var s' := Dequeue(s, now);
      && s'.curr == s.curr + 1 && |s'.log| == |s.log| && s'.accepted == s.accepted
      && s'.sent == if s.curr == s.sent then s.sent + 1 else s.sent
  {
    hide RingBytes;
    assert SlotOk(s, s.curr, cfg);
  }

  // ---------------------------------------------------------------------------------
  // Rounds of sending everything and then timing out, without a single ack
  // ---------------------------------------------------------------------------------

  /** Long enough for everything sent before to be older than 1.2 round trip times. */
  function Wait(cfg: Config): nat { 1200 * cfg.rtt + 1 }

  function Round(s: State, now: int, cfg: Config): State
    requires Inv(s, cfg)
  {
    DrainVisits(s, now, cfg);
    TimeOutStep(Drain(s, now), now + Wait(cfg), cfg)
  }

  function Rounds(s: State, times: seq<int>, cfg: Config): State
    requires Inv(s, cfg)
    decreases |times|
  {
    if times == [] then s
    else
      RoundInv(s, times[0], cfg);
      Rounds(Round(s, times[0], cfg), times[1..], cfg)
  }

  lemma RoundInv(s: State, now: int, cfg: Config)
    requires Inv(s, cfg)
    ensures Inv(Round(s, now, cfg), cfg)
  {
    hide Inv, Drain, TimeOutStep;
    DrainPointers(s, cfg);
    DrainVisits(s, now, cfg);
    TimeOutInv(Drain(s, now), now + Wait(cfg), cfg);
  }

  /** No slot was handed out later than `now`. */
  ghost predicate SentBy(s: State, now: int)
  {
    forall i | 0 <= i < |s.log| && s.log[i].status.OccupiedOutbound? :: s.log[i].time <= now
  }

  predicate Budgeted(slot: Slot, budget: nat)
  {
    slot.status.Empty? || (slot.status.OccupiedRetrans? && slot.retries <= budget)
  }

  /** Only retransmissions are left, each with at most this many retries. */
  ghost predicate Remaining(s: State, budget: nat)
  {
    forall i | 0 <= i < |s.log| :: Budgeted(s.log[i], budget)
  }

  lemma DrainSentBy(s: State, now: int)
    requires |s.handed| == |s.log| && SentBy(s, now)
    ensures SentBy(Drain(s, now), now)
    decreases |s.log| - s.curr
  {
    if s.curr < s.Tail() {
      DrainSentBy(Dequeue(s, now), now);
    }
  }

  /** What a late timeout leaves of a drained slot. */
  lemma TimedOutRemains(slot: Slot, now: int, cfg: Config)
    requires slot.status.OccupiedOutbound? ==> slot.time <= now
    requires slot.status.Empty? || slot.status.OccupiedOutbound?
    ensures var r := TimedOutSlot(slot, now + Wait(cfg), cfg);
      || r.status.Empty?
      || (r.status.OccupiedRetrans? && r.retries == slot.retries > 0 && slot.status.OccupiedOutbound?)
  {}

  lemma RoundLog(s: State, now: int, cfg: Config)
    requires Inv(s, cfg)
    ensures var d := Drain(s, now);
      && Inv(d, cfg) && d.head <= d.sent == |d.log| == |s.log| && Round(s, now, cfg).accepted == s.accepted
      && Round(s, now, cfg).log == TimedOutLog(d, now + Wait(cfg), cfg)
  {
    hide Drain, TimedOutLog, Inv, SlotOk;
    DrainPointers(s, cfg);
    DrainVisits(s, now, cfg);
    DrainPointers(Drain(s, now), cfg);
  }

  lemma DrainPointers(d: State, cfg: Config)
    requires Inv(d, cfg)
    ensures Pointers(d)
  {}

  /** After one round nothing is new or outbound any more. */
  lemma FirstRound(s: State, now: int, cfg: Config)
    requires Inv(s, cfg) && SentBy(s, now)
    ensures Remaining(Round(s, now, cfg), cfg.retrans)
  {
    hide Drain, Round, RingBytes;
    var d := Drain(s, now);
    RoundLog(s, now, cfg);
    DrainSentBy(s, now);
    var log := TimedOutLog(d, now + Wait(cfg), cfg);
    forall i | 0 <= i < |log| ensures Budgeted(log[i], cfg.retrans)
    {
      assert SlotOk(d, i, cfg);
      DrainSendsPending(s, now, cfg, i);
      TimedOutRemains(d.log[i], now, cfg);
    }
  }

  /** Each further round uses up one retry of every packet left. */
  lemma NextRound(s: State, now: int, cfg: Config, budget: nat)
    requires Inv(s, cfg) && Remaining(s, budget + 1)
    ensures Remaining(Round(s, now, cfg), budget)
  {
    hide Drain, Round, RingBytes;
    var d := Drain(s, now);
    RoundLog(s, now, cfg);
    DrainVisits(s, now, cfg);
    DrainSentBy(s, now);
    var log := TimedOutLog(d, now + Wait(cfg), cfg);
    forall i | 0 <= i < |log| ensures Budgeted(log[i], budget)
    {
      assert SlotOk(d, i, cfg) && SlotOk(s, i, cfg);
      assert Drained(s, d, i);
      TimedOutRemains(d.log[i], now, cfg);
    }
  }

  lemma {:induction false} RoundsShrink(s: State, times: seq<int>, cfg: Config)
    requires Inv(s, cfg) && Remaining(s, |times|)
    ensures var r := Rounds(s, times, cfg); Inv(r, cfg) && Remaining(r, 0) && r.accepted == s.accepted
    decreases |times|
  {
    hide Inv, Remaining, Round;
    if times != [] {
      RoundInv(s, times[0], cfg);
      RoundLog(s, times[0], cfg);
      NextRound(s, times[0], cfg, |times| - 1);
      RoundsShrink(Round(s, times[0], cfg), times[1..], cfg);
    }
  }

  /** A round leaves each fate alone or gives the packet up. */
  ghost predicate Given(s: State, r: State)
  {
    |s.fate| == |r.fate| && forall i | 0 <= i < |s.fate| :: r.fate[i] == s.fate[i] || r.fate[i].GivenUp?
  }

  lemma RoundGives(s: State, now: int, cfg: Config)
    requires Inv(s, cfg)
    ensures Given(s, Round(s, now, cfg))
  {
    hide Drain, TimedOutLog, Inv, SlotOk, Reclaim;
    DrainPointers(s, cfg);
    DrainVisits(s, now, cfg);
    DrainPointers(Drain(s, now), cfg);
    TimeOutFate(Drain(s, now), now + Wait(cfg), cfg);
  }

  lemma TimeOutFate(d: State, now: int, cfg: Config)
    requires d.head <= d.sent <= |d.log| == |d.fate|
    ensures TimeOutStep(d, now, cfg).fate == TimedOutFates(d)
  {}

  lemma {:induction false} RoundsGive(s: State, times: seq<int>, cfg: Config)
    requires Inv(s, cfg)
    ensures Given(s, Rounds(s, times, cfg))
    decreases |times|
  {
    hide Inv, Round;
    if times != [] {
      RoundInv(s, times[0], cfg);
      RoundGives(s, times[0], cfg);
      RoundsGive(Round(s, times[0], cfg), times[1..], cfg);
    }
  }

  /**
   Without any ack, retrans + 1 rounds settle every packet: exactly the ones still held at the
   start are given up, after retrans + 1 hand-outs, so a silent receiver can never block the buffer.
  */
  lemma SilenceEmptiesWindow(s: State, times: seq<int>, cfg: Config)
    requires Inv(s, cfg) && |times| == cfg.retrans + 1 && SentBy(s, times[0])
    ensures var r := Rounds(s, times, cfg);
      && Inv(r, cfg) && r.accepted == s.accepted && |s.fate| == |r.fate| == |r.handed| == |r.accepted|
      && (forall i | 0 <= i < |r.log| :: r.log[i].status.Empty?)
      && forall i | 0 <= i < |s.fate| ::
           if s.fate[i].Held? then r.fate[i].GivenUp? && r.handed[i] == cfg.retrans + 1 else r.fate[i] == s.fate[i]
  {
    hide Round, RingBytes, Rounds;
    AllEmptied(s, times, cfg);
    RoundsKeep(s, times, cfg);
    var r := Rounds(s, times, cfg);
    forall i | 0 <= i < |r.log|
      ensures r.log[i].status.Empty?
      ensures if s.fate[i].Held? then r.fate[i].GivenUp? && r.handed[i] == cfg.retrans + 1 else r.fate[i] == s.fate[i]
    {
      assert SlotOk(r, i, cfg);
    }
  }

  lemma AllEmptied(s: State, times: seq<int>, cfg: Config)
    requires Inv(s, cfg) && |times| == cfg.retrans + 1 && SentBy(s, times[0])
    ensures var r := Rounds(s, times, cfg); Inv(r, cfg) && Remaining(r, 0) && r.accepted == s.accepted
  {
    hide Round, Inv, Remaining;
    FirstRound(s, times[0], cfg);
    RoundInv(s, times[0], cfg);
    RoundLog(s, times[0], cfg);
    RoundsShrink(Round(s, times[0], cfg), times[1..], cfg);
  }

  /** A fate that was decided before stays as it is. */
  lemma {:induction false} RoundsKeep(s: State, times: seq<int>, cfg: Config)
    requires Inv(s, cfg)
    ensures var r := Rounds(s, times, cfg);
      && Given(s, r) && |s.fate| == |s.log| == |r.log| == |r.fate| == |r.accepted| == |r.handed|
      && forall i | 0 <= i < |s.fate| && !s.fate[i].Held? :: r.fate[i] == s.fate[i]
    decreases |times|
  {
    hide Inv, Round, Given;
    DrainPointers(s, cfg);
    RoundsGive(s, times, cfg);
    if times == [] {
      RoundsNone(s, cfg);
    } else {
      RoundInv(s, times[0], cfg);
      RoundKeeps(s, times[0], cfg);
      RoundsKeep(Round(s, times[0], cfg), times[1..], cfg);
    }
  }

  lemma RoundsNone(s: State, cfg: Config)
    requires Inv(s, cfg)
    ensures Rounds(s, [], cfg) == s
  {}

  lemma RoundKeeps(s: State, now: int, cfg: Config)
    requires Inv(s, cfg)
    ensures var r := Round(s, now, cfg);
      |r.fate| == |s.fate| && forall i | 0 <= i < |s.fate| && !s.fate[i].Held? :: r.fate[i] == s.fate[i]
  {
    hide Drain, TimedOutLog, RingBytes, Reclaim, Placed;
    DrainVisits(s, now, cfg);
    var d := Drain(s, now);
    TimeOutFate(d, now + Wait(cfg), cfg);
    forall i | 0 <= i < |s.fate| && !s.fate[i].Held? ensures TimedOutFates(d)[i] == s.fate[i] {
      assert SlotOk(d, i, cfg);
    }
  }

  // ---------------------------------------------------------------------------------
  // The sending thread always gets there
  // ---------------------------------------------------------------------------------

  /** Iterations the thread can still make before it must wait for a new slot. */
  function Work(s: System): nat
    requires s.win.curr <= |s.win.log|
  {
    5 * (|s.win.log| - s.win.curr) +
    match s.tx.pc
    case HandleNewPkt => 0
    case HandlePartialBatch => 4
    case HandleRetransmission => 2
    case HandleEncoding => if s.tx.retrans then 3 else 1
  }

  /** Every iteration that does not time out brings the thread closer to an empty queue. */
  lemma WorkShrinks(s: System, now: int, k: nat, cfg: Config)
    requires SysInv(s, cfg) && CanStep(s, false, k)
    ensures var s' := SendStep(s, false, now, k);
      s.win.curr <= |s.win.log| && s'.win.curr <= |s'.win.log| && Work(s') < Work(s)
  {
    hide Inv, InOrder, Accounted, Complete, StepRetransmission;
    DrainPointers(s.win, cfg);
    if s.tx.pc.HandleRetransmission? {
      assert SendStep(s, false, now, k).tx == StepRetransmission(s.tx, s.win.log);
      ResendState(s.tx, s.win.log);
    }
  }

  lemma ResendState(tx: Thread, log: seq<Slot>)
    requires tx.heldSeq >= 1 && CanCopy(log, tx.heldSeq - 1, tx.heldLen)
    ensures StepRetransmission(tx, log).pc.HandleEncoding? && !StepRetransmission(tx, log).retrans
  {}

  /** When no work is left, no packet is waiting and no retransmission is held. */
  lemma NoWorkLeft(s: System, cfg: Config)
    requires SysInv(s, cfg) && s.win.curr <= |s.win.log| && Work(s) == 0
    ensures s.tx.pc.HandleNewPkt? && !s.tx.retrans && forall i | 0 <= i < |s.win.log| :: !s.win.log[i].Pending()
  {
    hide InOrder, Accounted, Complete, RingBytes;
    forall i | 0 <= i < |s.win.log| ensures !s.win.log[i].Pending() {
      assert SlotOk(s.win, i, cfg);
    }
  }
}
