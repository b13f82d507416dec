/**
 Which bytes a batch carries. Packets sent for the first time are always copied correctly. A
 retransmission is copied from its ring slot after the current batch was finished, and by then
 the slot may hold a different packet.
*/
module Resend {
  import opened SendWindow
  import opened Ring
  import opened Sender
  import opened Runs

  /** Batch j of a run carries k consecutive packets, and each of a first transmission byte for byte. */
  lemma BatchContents(states: seq<System>, events: seq<Event>, cfg: Config, b: Batch)
    requires IsRun(states, events, cfg) && b in states[|events|].batches
    ensures var accepted := states[|events|].win.accepted;
      && 1 <= b.k <= MAX_BATCH_SIZE && |b.payloads| == |b.seqs| == b.k && 1 <= b.startSeq
      && b.startSeq + b.k - 1 <= |accepted|
      && (forall j | 0 <= j < b.k :: b.seqs[j] == b.startSeq + j && |b.payloads[j]| == |accepted[b.startSeq + j - 1]|)
      && (!b.resend ==> b.payloads == accepted[b.startSeq - 1..b.startSeq - 1 + b.k])
      && (b.resend ==> b.k == 1)
  {
    hide Inv, Accounted, ThreadOk, After, CanHappen, RingBytes;
    RunInv(states, events, cfg, |events|);
    var accepted := states[|events|].win.accepted;
    assert PushOk(b.seqs[0], b.source[0], b.payloads[0], accepted);
    assert PushOk(b.seqs[b.k - 1], b.source[b.k - 1], b.payloads[b.k - 1], accepted);
    forall j | 0 <= j < b.k
      ensures |b.payloads[j]| == |accepted[b.startSeq + j - 1]|
      ensures !b.resend ==> b.payloads[j] == accepted[b.startSeq - 1..b.startSeq - 1 + b.k][j]
    {
      assert PushOk(b.seqs[j], b.source[j], b.payloads[j], accepted);
    }
  }

  /**
   The bytes pushed for a held packet: copied from its own slot exactly when fewer than
   BUF_SIZE packets were accepted since. Otherwise they start with another packet.
  */
  lemma ResentBytes(s: System, cfg: Config)
    requires SysInv(s, cfg) && s.tx.pc.HandleRetransmission? && CanStep(s, false, 1)
    ensures var i := s.tx.heldSeq - 1; var tx' := SendStep(s, false, 0, 1).tx; var accepted := s.win.accepted;
      && i < |accepted| && |tx'.enc.source| == |tx'.enc.payloads| == 1 && tx'.enc.seqs == [i + 1]
      && i <= tx'.enc.source[0] < |accepted|
      && (tx'.enc.source[0] == i <==> |accepted| <= i + BUF_SIZE)
      && (|accepted| <= i + BUF_SIZE ==> tx'.enc.payloads[0] == accepted[i])
      && var other := accepted[tx'.enc.source[0]];
         if |other| <= |accepted[i]| then other <= tx'.enc.payloads[0]
         else tx'.enc.payloads[0] == other[..|accepted[i]|]
  {
    hide Inv, RingBytes, Accounted, Complete, SlotFits;
    var i := s.tx.heldSeq - 1;
    ResentPush(s, cfg);
    LatestIsSelf(i, |s.win.accepted|);
    OwnSlot(s.win.accepted, i);
  }

  lemma ResentPush(s: System, cfg: Config)
    requires SysInv(s, cfg) && s.tx.pc.HandleRetransmission? && CanStep(s, false, 1)
    ensures s.tx.heldSeq >= 1 && s.tx.heldSeq - 1 < |s.win.accepted|
    ensures var i := s.tx.heldSeq - 1; var enc := SendStep(s, false, 0, 1).tx.enc;
      && enc.seqs == [i + 1] && enc.source == [Latest(i, |s.win.accepted|)] && |enc.payloads| == 1
      && PushOk(i + 1, Latest(i, |s.win.accepted|), enc.payloads[0], s.win.accepted)
  {
    hide Inv, PushOk, Accounted, Complete, CopiedBytes;
    CopiedOk(s.win, s.tx.heldSeq - 1, cfg);
  }

  lemma OwnSlot(accepted: seq<Payload>, i: nat)
    requires i < |accepted|
    ensures RingBytes(accepted, i)[..|accepted[i]|] == accepted[i]
  {}

  /** A packet that is still held by the window is always resent with its own bytes. */
  lemma HeldIsIntact(s: System, cfg: Config)
    requires SysInv(s, cfg) && s.tx.pc.HandleRetransmission? && CanStep(s, false, 1)
    requires s.tx.heldSeq >= 1 && s.tx.heldSeq - 1 < |s.win.fate| && s.win.fate[s.tx.heldSeq - 1].Held?
    ensures s.tx.heldSeq - 1 < |s.win.accepted|
    ensures SendStep(s, false, 0, 1).tx.enc.payloads == [s.win.accepted[s.tx.heldSeq - 1]]
  {
    hide RingBytes, Accounted, Complete, InOrder, SendStep;
    ResentBytes(s, cfg);
    assert SlotOk(s.win, s.tx.heldSeq - 1, cfg);
  }

  // ---------------------------------------------------------------------------------
  // A run in which a retransmission carries the bytes of a later packet
  // ---------------------------------------------------------------------------------

  ghost predicate Reachable(s: System, cfg: Config)
  {
    exists states, events :: IsRun(states, events, cfg) && states[|events|] == s
  }

  lemma ReachFirst(cfg: Config)
    ensures Reachable(FIRST_SYSTEM, cfg)
  {
    assert IsRun([FIRST_SYSTEM], [], cfg);
  }

  lemma ReachNext(s: System, e: Event, cfg: Config)
    requires Reachable(s, cfg) && CanHappen(s, e)
    ensures Reachable(After(s, e, cfg), cfg)
  {
    hide After, CanHappen;
    var states, events :| IsRun(states, events, cfg) && states[|events|] == s;
    RunGrows(states, events, cfg, e);
    assert IsRun(states + [After(s, e, cfg)], events + [e], cfg);
  }

  const ONE_RETRY: Config := Config(1, 0, 0)

  /** The window after n one-byte packets arrived. */
  function Filled(n: nat): State
  {
    State(0, 0, 0, seq(n, i requires 0 <= i < n => Fresh(i)), seq(n, _ => [1]), seq(n, _ => 0), seq(n, _ => Held))
  }

  function Fresh(i: nat): Slot { NewSlot(i, [1], ONE_RETRY, BlankSlot(ONE_RETRY)) }

  lemma {:induction false} ReachFilled(n: nat)
    requires n <= BUF_SIZE
    ensures Reachable(System(Filled(n), FIRST_THREAD, []), ONE_RETRY)
  {
    hide Reachable, Filled, Enqueue;
    if n == 0 {
      ReachFirst(ONE_RETRY);
      assert Filled(0) == START by { FilledNone(); }
    } else {
      ReachFilled(n - 1);
      var s := System(Filled(n - 1), FIRST_THREAD, []);
      ReachNext(s, Arrive([1]), ONE_RETRY);
      FilledNext(n - 1);
    }
  }

  lemma FilledNone()
    ensures Filled(0) == START
  {}

  lemma FilledNext(n: nat)
    requires n < BUF_SIZE
    ensures Enqueue(Filled(n), [1], ONE_RETRY) == Filled(n + 1)
  {
    hide Fresh, Leftover, NewSlot;
    var a, b := Enqueue(Filled(n), [1], ONE_RETRY), Filled(n + 1);
    assert Fresh(n) == NewSlot(n, [1], ONE_RETRY, Leftover(Filled(n).log, n, ONE_RETRY)) by { FreshIs(n); }
    assert a.log == b.log;
    assert a.accepted == b.accepted && a.handed == b.handed && a.fate == b.fate;
  }

  lemma FreshIs(n: nat)
    requires n < BUF_SIZE
    ensures Fresh(n) == NewSlot(n, [1], ONE_RETRY, Leftover(Filled(n).log, n, ONE_RETRY))
  {}

  /** The parts of a system state that the run below depends on. */
  ghost predicate Shape(s: System, tail: nat, head: nat, curr: nat, slot: Slot, pc: Pc, retrans: bool, cnt: nat)
  {
    var win := s.win;
    && win.head == head && win.curr == curr
    && |win.log| == |win.accepted| == |win.handed| == |win.fate| == tail && tail >= 1
    && win.log[0] == slot && win.accepted[0] == [1] && win.sent <= tail
    && s.tx.pc == pc && s.tx.retrans == retrans && s.tx.cnt == cnt
    && (retrans ==> s.tx.heldSeq == 1)
  }

  const LENT: Slot := Fresh(0).(status := OccupiedOutbound, time := 0)
  const STEP: Event := Iterate(false, 0, 1)

  lemma FirstSend(s: System)
    requires s == System(Filled(BUF_SIZE), FIRST_THREAD, [])
    ensures CanHappen(s, STEP) && Shape(After(s, STEP, ONE_RETRY), BUF_SIZE, 0, 1, LENT, HandleEncoding, false, 1)
    ensures After(s, STEP, ONE_RETRY).win.sent == 1
  {}

  lemma FirstEncode(s: System)
    requires Shape(s, BUF_SIZE, 0, 1, LENT, HandleEncoding, false, 1)
    ensures CanHappen(s, STEP) && Shape(After(s, STEP, ONE_RETRY), BUF_SIZE, 0, 1, LENT, HandleNewPkt, false, 0)
    ensures After(s, STEP, ONE_RETRY).win == s.win
  {}

  const MISSING: Event := AckIn(Ack(1, [1]), 0)

  lemma PacketNacked(s: System)
    requires Shape(s, BUF_SIZE, 0, 1, LENT, HandleNewPkt, false, 0) && s.win.sent == 1
    ensures CanHappen(s, MISSING)
    ensures Shape(After(s, MISSING, ONE_RETRY), BUF_SIZE, 0, 0,
                  LENT.(status := OccupiedRetrans), HandleNewPkt, false, 0)
    ensures After(s, MISSING, ONE_RETRY).win.sent == 1
  {
    assert AckedLog(s.win, MISSING.ack, 0, ONE_RETRY)[0] == LENT.(status := OccupiedRetrans);
  }

  const SPENT: Slot := LENT.(retries := 0)

  lemma SecondSend(s: System)
    requires Shape(s, BUF_SIZE, 0, 0, LENT.(status := OccupiedRetrans), HandleNewPkt, false, 0) && s.win.sent == 1
    ensures CanHappen(s, STEP) && Shape(After(s, STEP, ONE_RETRY), BUF_SIZE, 0, 1, SPENT, HandlePartialBatch, true, 0)
    ensures After(s, STEP, ONE_RETRY).win.sent == 1
  {
    hide Fresh, AddNew;
    LentSlot();
    HandedAgain(s, LENT.(status := OccupiedRetrans));
  }

  lemma LentSlot()
    ensures LENT.seqNum == LENT.len == LENT.retries == 1 && LENT.pkt == [1] && LENT.time == 0
  {}

  /** A retransmission at the front of the window is handed out and held back. */
  lemma HandedAgain(s: System, slot: Slot)
    requires s.tx.pc.HandleNewPkt? && s.win.curr == 0 && |s.win.log| == |s.win.accepted| == |s.win.handed| > 0
    requires s.win.log[0] == slot && slot.status.OccupiedRetrans?
    requires slot.retries == 1 && slot.seqNum == 1 && 0 < slot.len <= |slot.pkt| && slot.len <= PKT_SIZE
    ensures CanHappen(s, STEP)
    ensures var s' := After(s, STEP, ONE_RETRY);
      && s'.win == s.win.(curr := 1, log := s'.win.log, handed := s'.win.handed)
      && |s'.win.log| == |s.win.log| && s'.win.log[0] == slot.(status := OccupiedOutbound, time := 0, retries := 0)
      && |s'.win.handed| == |s.win.handed|
      && s'.tx == s.tx.(retrans := true, heldSeq := 1, heldLen := slot.len, pc := HandlePartialBatch)
  {
    hide AddNew;
  }

  lemma HeldBack(s: System)
    requires Shape(s, BUF_SIZE, 0, 1, SPENT, HandlePartialBatch, true, 0)
    ensures CanHappen(s, STEP) && Shape(After(s, STEP, ONE_RETRY), BUF_SIZE, 0, 1, SPENT, HandleRetransmission, true, 0)
    ensures After(s, STEP, ONE_RETRY).win == s.win
  {}

  lemma DroppedByTimeOut(s: System)
    requires Shape(s, BUF_SIZE, 0, 1, SPENT, HandleRetransmission, true, 0) && s.win.sent == 1
    ensures CanHappen(s, TimeOut(0))
    ensures Shape(After(s, TimeOut(0), ONE_RETRY), BUF_SIZE, 1, 1, SPENT.Cleared(), HandleRetransmission, true, 0)
  {
    assert TimedOutLog(s.win, 0, ONE_RETRY)[0] == SPENT.Cleared();
  }

  lemma Overwritten(s: System)
    requires Shape(s, BUF_SIZE, 1, 1, SPENT.Cleared(), HandleRetransmission, true, 0)
    ensures CanHappen(s, Arrive([2]))
    ensures var s' := After(s, Arrive([2]), ONE_RETRY);
      Shape(s', BUF_SIZE + 1, 1, 1, SPENT.Cleared(), HandleRetransmission, true, 0) && s'.win.accepted[BUF_SIZE] == [2]
  {
    hide NewSlot, Leftover;
  }

  /** 500 packets [1], packet 1 sent, nacked, dequeued again, dropped by a timeout, its slot refilled with [2]. */
  lemma ReachOverwritten() returns (s: System)
    ensures Reachable(s, ONE_RETRY) && Shape(s, BUF_SIZE + 1, 1, 1, SPENT.Cleared(), HandleRetransmission, true, 0)
    ensures s.win.accepted[BUF_SIZE] == [2]
  {
    hide Reachable, After, CanHappen, Shape, Filled, Fresh;
    ReachFilled(BUF_SIZE);
    s := System(Filled(BUF_SIZE), FIRST_THREAD, []);
    FirstSend(s);
    ReachNext(s, STEP, ONE_RETRY);
    s := After(s, STEP, ONE_RETRY);
    FirstEncode(s);
    ReachNext(s, STEP, ONE_RETRY);
    s := After(s, STEP, ONE_RETRY);
    PacketNacked(s);
    ReachNext(s, MISSING, ONE_RETRY);
    s := After(s, MISSING, ONE_RETRY);
    SecondSend(s);
    ReachNext(s, STEP, ONE_RETRY);
    s := After(s, STEP, ONE_RETRY);
    HeldBack(s);
    ReachNext(s, STEP, ONE_RETRY);
    s := After(s, STEP, ONE_RETRY);
    DroppedByTimeOut(s);
    ReachNext(s, TimeOut(0), ONE_RETRY);
    s := After(s, TimeOut(0), ONE_RETRY);
    Overwritten(s);
    ReachNext(s, Arrive([2]), ONE_RETRY);
    s := After(s, Arrive([2]), ONE_RETRY);
  }

  /** Packet 1 was [1], yet the batch that resends it under its sequence number carries [2]. */
  lemma ResendCanCarryAnotherPacket() returns (s: System)
    ensures Reachable(s, ONE_RETRY) && s.tx.pc.HandleEncoding?
    ensures |s.win.accepted| > 0 && s.win.accepted[0] == [1]
    ensures s.tx.enc.startSeq == 1 && s.tx.enc.seqs == [1] && s.tx.enc.payloads == [[2]]
  {
    hide Reachable, After, CanStep, SysInv, RingBytes, CopiedBytes;
    var t := ReachOverwritten();
    ReachableInv(t, ONE_RETRY);
    CanStepExactly(t, false, 1, ONE_RETRY);
    ResentPush(t, ONE_RETRY);
    ReachNext(t, STEP, ONE_RETRY);
    s := After(t, STEP, ONE_RETRY);
    LastPush(t, s);
    assert RingBytes(t.win.accepted, BUF_SIZE)[..1] == [2];
  }

  lemma LastPush(t: System, s: System)
    requires CanStep(t, false, 1) && CanHappen(t, STEP) && s == After(t, STEP, ONE_RETRY)
    requires t.tx.pc.HandleRetransmission?
    ensures s == SendStep(t, false, 0, 1) && s.win == t.win
    ensures s.tx.pc.HandleEncoding? && s.tx.enc.startSeq == t.tx.heldSeq
  {}

  lemma ReachableInv(s: System, cfg: Config)
    requires Reachable(s, cfg)
    ensures SysInv(s, cfg)
  {
    hide SysInv;
    var states, events :| IsRun(states, events, cfg) && states[|events|] == s;
    RunInv(states, events, cfg, |events|);
  }
}
