/**
 TxSendAth: the sending thread as a state machine over the window, interleaved with arriving
 packets, acks and timeouts from the other threads. One iteration of its loop is one step.
*/
module Sender {
  import opened SendWindow
  import opened Ring

  const MAX_BATCH_SIZE: nat := 10

  datatype Pc = HandleNewPkt | HandlePartialBatch | HandleRetransmission | HandleEncoding

  /**
   The encoder's batch: k and start sequence number as announced in the coding header, and the
   payloads pushed so far. The rest is history: which packet each push was meant to send, which
   accepted packet was the last one stored in the ring slot it was copied from, and whether the
   batch is a retransmission.
  */
  datatype Batch = Batch(k: nat, startSeq: nat, payloads: seq<Payload>, seqs: seq<nat>, source: seq<nat>, resend: bool)

  /** The local variables of the thread; heldSeq and heldLen are the packet waiting to be retransmitted. */
  datatype Thread = Thread(pc: Pc, retrans: bool, cnt: nat, k: nat, heldSeq: nat, heldLen: nat, enc: Batch)

  datatype System = System(win: State, tx: Thread, batches: seq<Batch>)

  const NO_BATCH: Batch := Batch(0, 0, [], [], [], false)
  const FIRST_THREAD: Thread := Thread(HandleNewPkt, false, 0, 0, 0, 0, NO_BATCH)
  const FIRST_SYSTEM: System := System(START, FIRST_THREAD, [])

  /** Whatever is stored later, a slot never shows fewer bytes. */
  lemma {:induction false} RingBytesGrow(accepted: seq<Payload>, i: nat, j: nat)
    requires i <= j < |accepted| && i % BUF_SIZE == j % BUF_SIZE
    ensures |RingBytes(accepted, j)| >= |accepted[i]|
    decreases j
  {
    hide RingBytes;
    RingBytesStep(accepted, j);
    if i < j {
      if j < i + BUF_SIZE {
        DifferentPositions(i, j);
      }
      RingBytesGrow(accepted, i, j - BUF_SIZE);
    }
  }

  lemma RingBytesStep(accepted: seq<Payload>, j: nat)
    requires j < |accepted|
    ensures |RingBytes(accepted, j)| >= |accepted[j]|
    ensures j >= BUF_SIZE ==> |RingBytes(accepted, j)| >= |RingBytes(accepted, j - BUF_SIZE)|
  {}

  function Push(b: Batch, seqNum: nat, from: nat, pkt: Payload): Batch
  {
    b.(payloads := b.payloads + [pkt], seqs := b.seqs + [seqNum], source := b.source + [from])
  }

  // ---------------------------------------------------------------------------------
  // The loop body, one case of the switch each
  // ---------------------------------------------------------------------------------

  /** The bytes a push of packet i copies now: the ring slot, cut to the length recorded at the dequeue. */
  predicate CanCopy(log: seq<Slot>, i: nat, len: nat)
  {
    i < |log| && len <= |log[Latest(i, |log|)].pkt|
  }

  function CopiedBytes(log: seq<Slot>, i: nat, len: nat): Payload
    requires CanCopy(log, i, len)
  {
    log[Latest(i, |log|)].pkt[..len]
  }

  /**
   A wait that ends without timeout has a slot to dequeue, on which the assertions of DequeuePkt
   hold; and the first push of a batch is accepted, for which the rate decision k must not be 0.
  */
  predicate CanStep(s: System, timedOut: bool, k: nat)
  {
    && |s.win.handed| == |s.win.accepted| == |s.win.log|
    && (s.tx.pc.HandleNewPkt? && !timedOut ==>
          && s.win.curr < s.win.Tail() && s.win.log[s.win.curr].len <= |s.win.log[s.win.curr].pkt|
          && AssertsHold(s.win.log[s.win.curr])
          && (s.win.log[s.win.curr].status.OccupiedNew? && s.tx.cnt == 0 ==> k >= 1))
    && (s.tx.pc.HandleRetransmission? ==> s.tx.heldSeq >= 1 && CanCopy(s.win.log, s.tx.heldSeq - 1, s.tx.heldLen))
    && k <= MAX_BATCH_SIZE
  }

  /** A dequeued new packet joins the batch, opening it if it is the first. */
  function AddNew(tx: Thread, seqNum: nat, bytes: Payload, k: nat): Thread
    requires seqNum >= 1
  {
    var k' := if tx.cnt == 0 then k else tx.k;
    var enc := if tx.cnt == 0 then tx.enc.(k := k', startSeq := seqNum) else tx.enc;
    tx.(k := k', enc := Push(enc, seqNum, seqNum - 1, bytes), cnt := tx.cnt + 1,
        pc := if tx.cnt + 1 == k' then HandleEncoding else HandleNewPkt)
  }

  /** The slot just dequeued was at index i. */
  function TakeSlot(tx: Thread, slot: Slot, i: nat, k: nat): Thread
    requires slot.len <= |slot.pkt|
  {
    match slot.status
    case OccupiedNew => AddNew(tx, i + 1, slot.pkt[..slot.len], k)
    case OccupiedRetrans => tx.(retrans := true, heldSeq := slot.seqNum, heldLen := slot.len, pc := HandlePartialBatch)
    case _ => tx
  }

  function StepNewPkt(s: System, timedOut: bool, now: int, k: nat): System
    requires CanStep(s, timedOut, k) && s.tx.pc.HandleNewPkt?
  {
    if timedOut then s.(tx := s.tx.(pc := HandlePartialBatch))
    else s.(win := Dequeue(s.win, now), tx := TakeSlot(s.tx, s.win.log[s.win.curr], s.win.curr, k))
  }

  function StepPartialBatch(tx: Thread): Thread
  {
    if tx.cnt > 0 then tx.(k := tx.cnt, enc := tx.enc.(k := tx.cnt), pc := HandleEncoding)
    else if tx.retrans then tx.(pc := HandleRetransmission)
    else tx.(pc := HandleNewPkt)
  }

  /** The bytes are copied from the ring slot now, not when the packet was dequeued. */
  function StepRetransmission(tx: Thread, log: seq<Slot>): Thread
    requires tx.heldSeq >= 1 && CanCopy(log, tx.heldSeq - 1, tx.heldLen)
  {
    var i := tx.heldSeq - 1;
    var enc := tx.enc.(k := 1, startSeq := tx.heldSeq, resend := true);
    tx.(retrans := false, k := 1, cnt := tx.cnt + 1, pc := HandleEncoding,
        enc := Push(enc, tx.heldSeq, Latest(i, |log|), CopiedBytes(log, i, tx.heldLen)))
  }

  /** EncodeBatch, SendCodedBatch and ClearInfo. */
  function StepEncoding(s: System): System
  {
    s.(batches := s.batches + [s.tx.enc],
       tx := s.tx.(cnt := 0, enc := NO_BATCH, pc := if s.tx.retrans then HandleRetransmission else HandleNewPkt))
  }

  function SendStep(s: System, timedOut: bool, now: int, k: nat): System
    requires CanStep(s, timedOut, k)
  {
    match s.tx.pc
    case HandleNewPkt => StepNewPkt(s, timedOut, now, k)
    case HandlePartialBatch => s.(tx := StepPartialBatch(s.tx))
    case HandleRetransmission => s.(tx := StepRetransmission(s.tx, s.win.log))
    case HandleEncoding => StepEncoding(s)
  }

  // ---------------------------------------------------------------------------------
  // The invariant
  // ---------------------------------------------------------------------------------

  /** One push: the bytes were copied from the ring position of packet seqNum when it held packet `from`. */
  ghost predicate PushOk(seqNum: nat, from: nat, bytes: Payload, accepted: seq<Payload>)
  {
    && 1 <= seqNum <= from + 1 <= |accepted|
    && from % BUF_SIZE == (seqNum - 1) % BUF_SIZE
    && |accepted[seqNum - 1]| <= |RingBytes(accepted, from)|
    && bytes == RingBytes(accepted, from)[..|accepted[seqNum - 1]|]
  }

  /** Push j carries sequence number startSeq + j; only a retransmission can find another packet in the slot. */
  ghost predicate InOrder(b: Batch, accepted: seq<Payload>)
  {
    && |b.seqs| == |b.source| == |b.payloads|
    && (forall j | 0 <= j < |b.seqs| :: b.seqs[j] == b.startSeq + j)
    && (forall j | 0 <= j < |b.seqs| :: PushOk(b.seqs[j], b.source[j], b.payloads[j], accepted))
    && (!b.resend ==> forall j | 0 <= j < |b.seqs| :: b.source[j] == b.seqs[j] - 1)
  }

  ghost predicate Complete(b: Batch, accepted: seq<Payload>)
  {
    InOrder(b, accepted) && 1 <= |b.seqs| == b.k <= MAX_BATCH_SIZE && (b.resend ==> b.k == 1)
  }

  /** The open batch continues exactly at the next packet that was never sent. */
  predicate Filling(tx: Thread, sent: nat)
  {
    tx.cnt > 0 ==> tx.cnt < tx.k && tx.enc.startSeq + tx.cnt == sent + 1
  }

  ghost predicate ThreadOk(tx: Thread, sent: nat, accepted: seq<Payload>)
  {
    && tx.cnt == |tx.enc.seqs| && InOrder(tx.enc, accepted) && sent <= |accepted|
    && (tx.cnt > 0 ==> tx.cnt <= tx.k == tx.enc.k <= MAX_BATCH_SIZE)
    && (tx.cnt == 0 || tx.cnt < tx.k ==> !tx.enc.resend)
    && (tx.enc.resend ==> tx.k == 1)
    && (tx.retrans ==> 1 <= tx.heldSeq <= sent && tx.heldLen == |accepted[tx.heldSeq - 1]|)
    && match tx.pc
       case HandleNewPkt => !tx.retrans && Filling(tx, sent)
       case HandlePartialBatch => Filling(tx, sent)
       case HandleRetransmission => tx.retrans && tx.cnt == 0
       case HandleEncoding => tx.cnt > 0 && tx.cnt == tx.k
  }

  function AllSeqs(batches: seq<Batch>): multiset<nat>
  {
    if batches == [] then multiset{}
    else AllSeqs(batches[..|batches| - 1]) + multiset(batches[|batches| - 1].seqs)
  }

  /** Every sequence number taken out of the window, with multiplicity: sent, being filled, or held. */
  function TakenOut(batches: seq<Batch>, tx: Thread): multiset<nat>
  {
    AllSeqs(batches) + multiset(tx.enc.seqs) + if tx.retrans then multiset{tx.heldSeq} else multiset{}
  }

  /** Each hand-out of a packet is in exactly one batch, or is the one held for retransmission. */
  ghost predicate Accounted(taken: multiset<nat>, handed: seq<nat>)
  {
    && (forall i | 0 <= i < |handed| :: taken[i + 1] == handed[i])
    && forall q | q in taken :: 1 <= q <= |handed|
  }

  ghost predicate SysInv(s: System, cfg: Config)
  {
    && Inv(s.win, cfg)
    && SentWithContent(s.win.handed, s.win.accepted)
    && ThreadOk(s.tx, s.win.sent, s.win.accepted)
    && Accounted(TakenOut(s.batches, s.tx), s.win.handed)
    && forall b | b in s.batches :: Complete(b, s.win.accepted)
  }

  lemma FirstInv(cfg: Config)
    ensures SysInv(FIRST_SYSTEM, cfg)
  {
    StartInv(cfg);
  }

  // ---------------------------------------------------------------------------------
  // The thread's own steps
  // ---------------------------------------------------------------------------------

  /**
   When the thread can take its next step once a wait ends: always, except that the first hand-out
   of an empty packet fails an assertion, and so does the push that opens a batch of size 0.
  */
  lemma CanStepExactly(s: System, timedOut: bool, k: nat, cfg: Config)
    requires SysInv(s, cfg) && k <= MAX_BATCH_SIZE
    requires s.tx.pc.HandleNewPkt? && !timedOut ==> s.win.curr < s.win.Tail()
    ensures s.win.sent <= |s.win.log| == |s.win.accepted|
    ensures CanStep(s, timedOut, k) <==>
              (s.tx.pc.HandleNewPkt? && !timedOut && s.win.curr == s.win.sent ==>
                 s.win.accepted[s.win.sent] != [] && (s.tx.cnt == 0 ==> k >= 1))
  {
    hide RingBytes, Accounted, Complete, InOrder;
    if s.tx.pc.HandleRetransmission? {
      CopiedOk(s.win, s.tx.heldSeq - 1, cfg);
    } else if s.tx.pc.HandleNewPkt? && !timedOut {
      CurrentSlot(s.win, cfg);
      AssertsExactly(s.win, cfg);
    }
  }

  /** Copying packet i now is a push from the packet its ring position shows. */
  lemma CopiedOk(win: State, i: nat, cfg: Config)
    requires Inv(win, cfg) && i < win.Tail()
    ensures |win.accepted| == |win.log| == |win.handed|
    ensures var len := |win.accepted[i]|;
      && CanCopy(win.log, i, len)
      && PushOk(i + 1, Latest(i, |win.log|), CopiedBytes(win.log, i, len), win.accepted)
  {
    hide RingBytes, SlotFits;
    var j := Latest(i, |win.log|);
    assert SlotOk(win, j, cfg);
    RingBytesGrow(win.accepted, i, j);
  }

  /** A batch closed early is shorter than the maximum, as the redundancy rule for it demands. */
  lemma PartialBatchIsShort(s: System, cfg: Config)
    requires SysInv(s, cfg) && s.tx.pc.HandlePartialBatch? && s.tx.cnt > 0
    ensures s.tx.cnt < MAX_BATCH_SIZE && StepPartialBatch(s.tx).enc.k == s.tx.cnt == |s.tx.enc.seqs|
  {
    hide Inv, Accounted, Complete, InOrder;
  }

  lemma InOrderPush(b: Batch, seqNum: nat, from: nat, bytes: Payload, accepted: seq<Payload>)
    requires InOrder(b, accepted) && PushOk(seqNum, from, bytes, accepted)
    requires |b.seqs| > 0 ==> seqNum == b.startSeq + |b.seqs|
    requires !b.resend ==> from == seqNum - 1
    ensures var b' := if |b.seqs| == 0 then b.(startSeq := seqNum) else b;
      InOrder(Push(b', seqNum, from, bytes), accepted)
  {
    hide PushOk;
  }

  /** The slot under the current pointer, when it is handed out. */
  lemma CurrentSlot(win: State, cfg: Config)
    requires Inv(win, cfg) && win.curr < win.Tail()
    ensures |win.accepted| == |win.handed| == |win.log| && win.curr <= win.sent
    ensures win.log[win.curr].status.OccupiedNew? <==> win.curr == win.sent
    ensures win.log[win.curr].len <= |win.log[win.curr].pkt|
    ensures win.log[win.curr].Pending() ==>
              var slot := win.log[win.curr];
              slot.seqNum == win.curr + 1 && slot.len == |win.accepted[win.curr]| &&
                slot.pkt[..slot.len] == win.accepted[win.curr]
  {
    hide RingBytes;
    assert SlotOk(win, win.curr, cfg);
  }

  lemma OwnBytes(accepted: seq<Payload>, i: nat)
    requires i < |accepted|
    ensures PushOk(i + 1, i, accepted[i], accepted)
  {
    hide RingBytes;
  }

  lemma AddNewOk(tx: Thread, k: nat, sent: nat, accepted: seq<Payload>)
    requires ThreadOk(tx, sent, accepted) && tx.pc.HandleNewPkt? && (tx.cnt == 0 ==> 1 <= k <= MAX_BATCH_SIZE)
    requires sent < |accepted|
    ensures ThreadOk(AddNew(tx, sent + 1, accepted[sent], k), sent + 1, accepted)
    ensures tx.cnt < AddNew(tx, sent + 1, accepted[sent], k).enc.k
  {
    hide InOrder, PushOk;
    OwnBytes(accepted, sent);
    SameLengths(tx.enc, accepted);
    var enc := if tx.cnt == 0 then tx.enc.(k := k) else tx.enc;
    SetK(tx.enc, k, accepted);
    InOrderPush(enc, sent + 1, sent, accepted[sent], accepted);
  }

  lemma SameLengths(b: Batch, accepted: seq<Payload>)
    requires InOrder(b, accepted)
    ensures |b.seqs| == |b.source| == |b.payloads|
  {}

  lemma SetK(b: Batch, k: nat, accepted: seq<Payload>)
    requires InOrder(b, accepted)
    ensures InOrder(b.(k := k), accepted)
  {}

  /** A hand-out adds one to both sides of the account. */
  lemma AccountHandOut(taken: multiset<nat>, handed: seq<nat>, i: nat)
    requires Accounted(taken, handed) && i < |handed|
    ensures Accounted(taken + multiset{i + 1}, handed[i := handed[i] + 1])
  {}

  /** A hand-out that passed the assertions had content. */
  lemma ContentKept(s: State, now: int, cfg: Config)
    requires Inv(s, cfg) && SentWithContent(s.handed, s.accepted) && s.curr < s.Tail() && AssertsHold(s.log[s.curr])
    ensures |s.handed| == |s.log| && SentWithContent(Dequeue(s, now).handed, Dequeue(s, now).accepted)
  {
    hide RingBytes;
    assert SlotOk(s, s.curr, cfg);
  }

  lemma TakenPush(batches: seq<Batch>, tx: Thread, seqNum: nat, bytes: Payload, k: nat)
    requires seqNum >= 1
    ensures TakenOut(batches, AddNew(tx, seqNum, bytes, k)) == TakenOut(batches, tx) + multiset{seqNum}
  {
    var enc := tx.enc;
    assert multiset(enc.seqs + [seqNum]) == multiset(enc.seqs) + multiset{seqNum};
  }

  lemma TakenHold(batches: seq<Batch>, tx: Thread, slot: Slot)
    requires !tx.retrans
    ensures TakenOut(batches, tx.(retrans := true, heldSeq := slot.seqNum, heldLen := slot.len,
                                  pc := HandlePartialBatch))
         == TakenOut(batches, tx) + multiset{slot.seqNum}
  {}

  lemma TakenWait(batches: seq<Batch>, tx: Thread)
    ensures TakenOut(batches, tx.(pc := HandlePartialBatch)) == TakenOut(batches, tx)
  {}

  lemma TakenResend(batches: seq<Batch>, tx: Thread, log: seq<Slot>)
    requires tx.heldSeq >= 1 && CanCopy(log, tx.heldSeq - 1, tx.heldLen) && tx.retrans
    ensures TakenOut(batches, StepRetransmission(tx, log)) == TakenOut(batches, tx)
  {
    hide CopiedBytes;
    assert multiset(tx.enc.seqs + [tx.heldSeq]) == multiset(tx.enc.seqs) + multiset{tx.heldSeq};
  }

  lemma TakenSent(s: System)
    ensures TakenOut(StepEncoding(s).batches, StepEncoding(s).tx) == TakenOut(s.batches, s.tx)
  {
    assert (s.batches + [s.tx.enc])[..|s.batches|] == s.batches;
    assert AllSeqs(s.batches + [s.tx.enc]) == AllSeqs(s.batches) + multiset(s.tx.enc.seqs);
  }

  lemma NewPktInv(s: System, timedOut: bool, now: int, k: nat, cfg: Config)
    requires SysInv(s, cfg) && CanStep(s, timedOut, k) && s.tx.pc.HandleNewPkt?
    ensures SysInv(StepNewPkt(s, timedOut, now, k), cfg)
  {
    hide Inv, InOrder, PushOk, AddNew, Accounted, Complete, Push, TakenOut, AssertsHold, SentWithContent;
    if timedOut {
      TakenWait(s.batches, s.tx);
    } else {
      DequeueInv(s.win, now, cfg);
      CurrentSlot(s.win, cfg);
      ContentKept(s.win, now, cfg);
      var slot := s.win.log[s.win.curr];
      if slot.status.OccupiedNew? {
        AddNewOk(s.tx, k, s.win.sent, s.win.accepted);
        TakenPush(s.batches, s.tx, s.win.sent + 1, slot.pkt[..slot.len], k);
        AccountHandOut(TakenOut(s.batches, s.tx), s.win.handed, s.win.curr);
      } else if slot.status.OccupiedRetrans? {
        TakenHold(s.batches, s.tx, slot);
        AccountHandOut(TakenOut(s.batches, s.tx), s.win.handed, s.win.curr);
      }
    }
  }

  lemma PartialBatchInv(s: System, cfg: Config)
    requires SysInv(s, cfg) && s.tx.pc.HandlePartialBatch?
    ensures SysInv(s.(tx := StepPartialBatch(s.tx)), cfg)
  {
    hide Inv, PushOk, Accounted, Complete;
  }

  lemma RetransmissionInv(s: System, cfg: Config)
    requires SysInv(s, cfg) && s.tx.pc.HandleRetransmission?
    requires CanCopy(s.win.log, s.tx.heldSeq - 1, s.tx.heldLen)
    ensures SysInv(s.(tx := StepRetransmission(s.tx, s.win.log)), cfg)
  {
    hide Inv, InOrder, PushOk, Accounted, Complete, CopiedBytes, TakenOut, CanCopy;
    var tx, log := s.tx, s.win.log;
    var i := tx.heldSeq - 1;
    WindowLengths(s.win, cfg);
    CopiedOk(s.win, i, cfg);
    SameLengths(tx.enc, s.win.accepted);
    ResendEmpty(tx.enc, s.win.accepted);
    InOrderPush(tx.enc.(k := 1, resend := true), tx.heldSeq, Latest(i, |log|),
                CopiedBytes(log, i, tx.heldLen), s.win.accepted);
    TakenResend(s.batches, tx, log);
  }

  lemma ResendEmpty(b: Batch, accepted: seq<Payload>)
    requires InOrder(b, accepted) && |b.seqs| == 0
    ensures InOrder(b.(k := 1, resend := true), accepted)
  {}

  lemma EncodingInv(s: System, cfg: Config)
    requires SysInv(s, cfg) && s.tx.pc.HandleEncoding?
    ensures SysInv(StepEncoding(s), cfg)
  {
    hide Inv, PushOk, Accounted, TakenOut;
    TakenSent(s);
    assert Complete(s.tx.enc, s.win.accepted);
  }

  lemma SendStepInv(s: System, timedOut: bool, now: int, k: nat, cfg: Config)
    requires SysInv(s, cfg) && CanStep(s, timedOut, k)
    ensures SysInv(SendStep(s, timedOut, now, k), cfg)
  {
    hide SysInv;
    match s.tx.pc
    case HandleNewPkt => NewPktInv(s, timedOut, now, k, cfg);
    case HandlePartialBatch => PartialBatchInv(s, cfg);
    case HandleRetransmission => RetransmissionInv(s, cfg);
    case HandleEncoding => EncodingInv(s, cfg);
  }

  // ---------------------------------------------------------------------------------
  // Steps of the other threads
  // ---------------------------------------------------------------------------------

  lemma PushStable(seqNum: nat, from: nat, bytes: Payload, accepted: seq<Payload>, more: seq<Payload>)
    requires PushOk(seqNum, from, bytes, accepted)
    ensures PushOk(seqNum, from, bytes, accepted + more)
  {
    RingBytesStable(accepted, more, from);
  }

  lemma InOrderStable(b: Batch, accepted: seq<Payload>, more: seq<Payload>)
    requires InOrder(b, accepted)
    ensures InOrder(b, accepted + more)
  {
    hide PushOk;
    forall j | 0 <= j < |b.seqs| ensures PushOk(b.seqs[j], b.source[j], b.payloads[j], accepted + more) {
      PushStable(b.seqs[j], b.source[j], b.payloads[j], accepted, more);
    }
  }

  lemma ArriveInv(s: System, pkt: Payload, cfg: Config)
    requires SysInv(s, cfg) && FitsSlot(pkt)
    ensures SysInv(s.(win := Enqueue(s.win, pkt, cfg)), cfg)
  {
    hide Inv, InOrder, TakenOut;
    EnqueueInv(s.win, pkt, cfg);
    WindowLengths(s.win, cfg);
    InOrderStable(s.tx.enc, s.win.accepted, [pkt]);
    forall b | b in s.batches ensures Complete(b, s.win.accepted + [pkt]) {
      InOrderStable(b, s.win.accepted, [pkt]);
    }
  }

  lemma WindowLengths(win: State, cfg: Config)
    requires Inv(win, cfg)
    ensures Pointers(win)
  {}

  /** Acks and timeouts leave alone what the thread depends on. */
  lemma OtherThreadInv(s: System, win: State, cfg: Config)
    requires SysInv(s, cfg) && Inv(win, cfg)
    requires win.sent == s.win.sent && win.accepted == s.win.accepted && win.handed == s.win.handed
    ensures SysInv(s.(win := win), cfg)
  {
    hide Inv, ThreadOk, Accounted, Complete;
  }
}
