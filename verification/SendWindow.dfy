/**
 The retransmission window as a state machine over an unbounded log of slots. Slot i of the
 log is the i-th packet ever accepted (sequence number i + 1); the ring buffer of 500 slots
 in module TxBuffer holds exactly the part from head to tail.
*/
module SendWindow {
  import Gf

  const BUF_SIZE: nat := 500
  const PKT_SIZE: nat := 1472

  /** Packets are bytes. */
  type Payload = seq<Gf.gf>

  datatype Status = Empty | OccupiedNew | OccupiedRetrans | OccupiedOutbound

  /** One bookkeeping entry and the bytes of its packet buffer; time is in microseconds. */
  datatype Slot = Slot(seqNum: nat, status: Status, len: nat, retries: nat, time: int, pkt: Payload) {
    function Cleared(): Slot { this.(seqNum := 0, status := Empty, len := 0, retries := 0) }

    predicate Pending() { status.OccupiedNew? || status.OccupiedRetrans? }
  }

  /** A cumulative ack up to endSeq with a list of missing sequence numbers. */
  datatype Ack = Ack(endSeq: nat, nacks: seq<nat>) {
    /** Nacks ascend strictly and lie in [1, endSeq]. */
    predicate WellFormed() {
      && (forall i | 0 <= i < |nacks| :: 1 <= nacks[i] <= endSeq)
      && forall i, j | 0 <= i < j < |nacks| :: nacks[i] < nacks[j]
    }

    /** The receiver reports sequence number seqNum as received. */
    predicate Reports(seqNum: nat) { 1 <= seqNum <= endSeq && seqNum !in nacks }
  }

  /** What finally became of an accepted packet. */
  datatype Fate = Held | Received(ack: Ack) | GivenUp

  /** retrans is num_retrans, rtt is in milliseconds, startTime the timestamp of unused slots. */
  datatype Config = Config(retrans: nat, rtt: nat, startTime: int)

  /**
   sent counts the first-time dequeues. accepted, handed and fate are history: the payloads in
   order of acceptance, how often each was handed out for sending, and what became of it.
  */
  datatype State = State(
    head: nat, curr: nat, sent: nat, log: seq<Slot>,
    accepted: seq<Payload>, handed: seq<nat>, fate: seq<Fate>)
  {
    function Tail(): nat { |log| }
  }

  // ---------------------------------------------------------------------------------
  // Steps
  // ---------------------------------------------------------------------------------

  /** memcpy into a buffer: a longer packet stored there before leaves its tail behind. */
  function Overlay(pkt: Payload, prior: Payload): (r: Payload)
    ensures |r| >= |pkt| && |r| >= |prior| && r[..|pkt|] == pkt
    ensures r[|pkt|..] == prior[if |pkt| <= |prior| then |pkt| else |prior|..]
  {
    if |prior| <= |pkt| then pkt else pkt + prior[|pkt|..]
  }

  function BlankSlot(cfg: Config): Slot { Slot(0, Empty, 0, 0, cfg.startTime, []) }

  /** What is left in the ring slot that packet i goes to: packet i - BUF_SIZE was there before. */
  function Leftover(log: seq<Slot>, i: nat, cfg: Config): Slot
    requires i <= |log|
  {
    if i < BUF_SIZE then BlankSlot(cfg) else log[i - BUF_SIZE]
  }

  function NewSlot(i: nat, pkt: Payload, cfg: Config, prior: Slot): Slot
  {
    Slot(i + 1, OccupiedNew, |pkt|, cfg.retrans, prior.time, Overlay(pkt, prior.pkt))
  }

  /** EnqueuePkt: dropped silently when the window is full. */
  function Enqueue(s: State, pkt: Payload, cfg: Config): State
  {
    if s.Tail() == s.head + BUF_SIZE then s
    else s.(log := s.log + [NewSlot(s.Tail(), pkt, cfg, Leftover(s.log, s.Tail(), cfg))],
            accepted := s.accepted + [pkt], handed := s.handed + [0], fate := s.fate + [Held])
  }

  /** The bytes in the ring slot of packet i just after that packet was stored. */
  function RingBytes(accepted: seq<Payload>, i: nat): (r: Payload)
    requires i < |accepted|
    ensures |r| >= |accepted[i]| && r[..|accepted[i]|] == accepted[i]
  {
    Overlay(accepted[i], if i < BUF_SIZE then [] else RingBytes(accepted, i - BUF_SIZE))
  }

  lemma RingBytesUnfold(accepted: seq<Payload>, i: nat)
    requires i < |accepted|
    ensures RingBytes(accepted, i)
         == Overlay(accepted[i], if i < BUF_SIZE then [] else RingBytes(accepted, i - BUF_SIZE))
  {}

  lemma {:induction false} RingBytesStable(accepted: seq<Payload>, more: seq<Payload>, i: nat)
    requires i < |accepted|
    ensures RingBytes(accepted + more, i) == RingBytes(accepted, i)
  {
    hide RingBytes, Overlay;
    RingBytesUnfold(accepted, i);
    RingBytesUnfold(accepted + more, i);
    if i >= BUF_SIZE {
      RingBytesStable(accepted, more, i - BUF_SIZE);
    }
  }

  function HandOut(slot: Slot, now: int): Slot
  {
    if slot.status.OccupiedNew? then slot.(status := OccupiedOutbound, time := now)
    else if slot.status.OccupiedRetrans? && slot.retries > 0 then
      slot.(status := OccupiedOutbound, time := now, retries := slot.retries - 1)
    else slot
  }

  /** DequeuePkt without timeout: a pending slot is handed out, any other is skipped. */
  function Dequeue(s: State, now: int): State
    requires s.curr < s.Tail() == |s.handed|
  {
    var slot := s.log[s.curr];
    if slot.Pending() then
      s.(curr := s.curr + 1, sent := if slot.status.OccupiedNew? then s.sent + 1 else s.sent,
         log := s.log[s.curr := HandOut(slot, now)],
         handed := s.handed[s.curr := s.handed[s.curr] + 1])
    else s.(curr := s.curr + 1)
  }

  /** The first index in [lo, hi) whose slot is still occupied, or hi. */
  function FirstKept(log: seq<Slot>, lo: nat, hi: nat): (r: nat)
    requires lo <= hi <= |log|
    ensures lo <= r <= hi && (forall i | lo <= i < r :: log[i].status.Empty?)
    ensures r < hi ==> !log[r].status.Empty?
    decreases hi - lo
  {
    if lo < hi && log[lo].status.Empty? then FirstKept(log, lo + 1, hi) else lo
  }

  /** The first index in [lo, hi) waiting for retransmission, or a default. */
  function FirstRetrans(log: seq<Slot>, lo: nat, hi: nat, default: nat): (r: nat)
    requires lo <= hi <= |log|
    ensures forall i | lo <= i < hi && log[i].status.OccupiedRetrans? :: r <= i
    ensures r == default || (lo <= r < hi && log[r].status.OccupiedRetrans?)
    ensures (exists i | lo <= i < hi :: log[i].status.OccupiedRetrans?) ==>
        lo <= r < hi && log[r].status.OccupiedRetrans?
    decreases hi - lo
  {
    if lo == hi then default
    else if log[lo].status.OccupiedRetrans? then lo
    else FirstRetrans(log, lo + 1, hi, default)
  }

  function Max(a: nat, b: nat): nat { if a < b then b else a }

  /** After slots in [head, hi) changed: reclaim a prefix and restart at the first retransmission. */
  function Reclaim(s: State, log: seq<Slot>, fate: seq<Fate>, hi: nat): State
    requires s.head <= hi <= |log|
  {
    var head := FirstKept(log, s.head, hi);
    s.(log := log, fate := fate, head := head, curr := Max(head, FirstRetrans(log, s.head, hi, s.curr)))
  }

  /** A slot covered by an ack. */
  function AckedSlot(slot: Slot, nacked: bool, now: int, cfg: Config): Slot
  {
    if slot.status.Empty? then slot
    else if !nacked then slot.Cleared()
    else if slot.status.OccupiedOutbound? then
      if slot.retries == 0 then slot.Cleared()
      else if now - slot.time > 1000 * cfg.rtt || slot.retries == cfg.retrans then slot.(status := OccupiedRetrans)
      else slot
    else slot
  }

  function AckedFate(slot: Slot, fate: Fate, i: nat, ack: Ack): Fate
  {
    if slot.status.Empty? then fate
    else if i + 1 !in ack.nacks then Received(ack)
    else if slot.status.OccupiedOutbound? && slot.retries == 0 then GivenUp
    else fate
  }

  function AckedLog(s: State, ack: Ack, now: int, cfg: Config): (r: seq<Slot>)
    ensures |r| == |s.log|
  {
    seq(|s.log|, i requires 0 <= i < |s.log| =>
      if s.head <= i < ack.endSeq then AckedSlot(s.log[i], i + 1 in ack.nacks, now, cfg) else s.log[i])
  }

  function AckedFates(s: State, ack: Ack): (r: seq<Fate>)
    requires |s.fate| == |s.log|
    ensures |r| == |s.fate|
  {
    seq(|s.fate|, i requires 0 <= i < |s.fate| =>
      if s.head <= i < ack.endSeq then AckedFate(s.log[i], s.fate[i], i, ack) else s.fate[i])
  }

  /** The window part of HandleDataAck; an ack that ends below the window changes nothing. */
  function AckStep(s: State, ack: Ack, now: int, cfg: Config): State
    requires ack.endSeq <= |s.log| == |s.fate|
  {
    if ack.endSeq <= s.head then s
    else Reclaim(s, AckedLog(s, ack, now, cfg), AckedFates(s, ack), ack.endSeq)
  }

  /** An outbound slot without retries is dropped whatever its age. */
  function TimedOutSlot(slot: Slot, now: int, cfg: Config): Slot
  {
    if slot.status.OccupiedOutbound? then
      if slot.retries == 0 then slot.Cleared()
      else if Expired(slot, now, cfg) then slot.(status := OccupiedRetrans)
      else slot
    else slot
  }

  /** Older than 1.2 round trip times. */
  predicate Expired(slot: Slot, now: int, cfg: Config) { 10 * (now - slot.time) > 12 * 1000 * cfg.rtt }

  function TimedOutLog(s: State, now: int, cfg: Config): (r: seq<Slot>)
    ensures |r| == |s.log|
  {
    seq(|s.log|, i requires 0 <= i < |s.log| =>
      if s.head <= i < s.sent then TimedOutSlot(s.log[i], now, cfg) else s.log[i])
  }

  function TimedOutFate(slot: Slot, fate: Fate): Fate
  {
    if slot.status.OccupiedOutbound? && slot.retries == 0 then GivenUp else fate
  }

  function TimedOutFates(s: State): (r: seq<Fate>)
    requires |s.fate| == |s.log|
    ensures |r| == |s.fate|
  {
    seq(|s.fate|, i requires 0 <= i < |s.fate| =>
      if s.head <= i < s.sent then TimedOutFate(s.log[i], s.fate[i]) else s.fate[i])
  }

  function TimeOutStep(s: State, now: int, cfg: Config): State
    requires s.head <= s.sent <= |s.log| == |s.fate|
  {
    Reclaim(s, TimedOutLog(s, now, cfg), TimedOutFates(s), s.sent)
  }

  // ---------------------------------------------------------------------------------
  // The invariant
  // ---------------------------------------------------------------------------------

  ghost predicate Pointers(s: State)
  {
    && s.head <= s.curr <= s.sent <= |s.log| <= s.head + BUF_SIZE
    && |s.accepted| == |s.handed| == |s.fate| == |s.log|
  }

  /** One slot of the log against its history: length, sequence number, retry budget and fate. */
  ghost predicate SlotFits(slot: Slot, fate: Fate, i: nat, sent: nat, len: nat, handed: nat, cfg: Config)
  {
    && (slot.status.OccupiedNew? <==> i >= sent)
    && (slot.status.OccupiedRetrans? ==> slot.retries > 0)
    && (slot.status.Empty? ==> slot.seqNum == slot.len == slot.retries == 0)
    && (!slot.status.Empty? ==> slot.seqNum == i + 1 && slot.len == len)
    && len <= PKT_SIZE
    && (slot.status.OccupiedNew? ==> slot.retries == cfg.retrans)
    && (slot.status.OccupiedRetrans? || slot.status.OccupiedOutbound? ==> handed + slot.retries == cfg.retrans + 1)
    && (handed == 0 <==> i >= sent) && handed <= cfg.retrans + 1
    && (fate.Held? <==> !slot.status.Empty?)
    && (fate.Received? ==> fate.ack.Reports(i + 1))
    && (fate.GivenUp? ==> handed == cfg.retrans + 1)
  }

  /** Nothing below head is occupied, nothing below curr waits for retransmission. */
  predicate Placed(slot: Slot, i: nat, head: nat, curr: nat)
  {
    (i < head ==> slot.status.Empty?) && (slot.status.OccupiedRetrans? ==> i >= curr)
  }

  ghost predicate SlotOk(s: State, i: nat, cfg: Config)
    requires i < |s.log| == |s.accepted| == |s.handed| == |s.fate|
  {
    && SlotFits(s.log[i], s.fate[i], i, s.sent, |s.accepted[i]|, s.handed[i], cfg)
    && Placed(s.log[i], i, s.head, s.curr)
    && s.log[i].pkt == RingBytes(s.accepted, i)
  }

  ghost predicate Inv(s: State, cfg: Config)
  {
    Pointers(s) && forall i | 0 <= i < |s.log| :: SlotOk(s, i, cfg)
  }

  const START: State := State(0, 0, 0, [], [], [], [])

  lemma StartInv(cfg: Config)
    ensures Inv(START, cfg)
  {}

  /** EnqueuePkt copies whatever it gets; a slot has room for this many bytes. */
  predicate FitsSlot(pkt: Payload) { |pkt| <= PKT_SIZE }

  lemma EnqueueInv(s: State, pkt: Payload, cfg: Config)
    requires Inv(s, cfg) && FitsSlot(pkt)
    ensures Inv(Enqueue(s, pkt, cfg), cfg)
  {
    hide RingBytes, Overlay;
    var s' := Enqueue(s, pkt, cfg);
    if s.Tail() != s.head + BUF_SIZE {
      var n := |s.log|;
      assert s'.log[n].pkt == RingBytes(s'.accepted, n) by { StoredBytes(s, pkt, cfg); }
      forall i | 0 <= i < n ensures SlotOk(s', i, cfg) {
        assert SlotOk(s, i, cfg);
        RingBytesStable(s.accepted, [pkt], i);
      }
      assert SlotOk(s', n, cfg);
    }
  }

  lemma StoredBytes(s: State, pkt: Payload, cfg: Config)
    requires Inv(s, cfg)
    ensures Overlay(pkt, Leftover(s.log, s.Tail(), cfg).pkt) == RingBytes(s.accepted + [pkt], s.Tail())
  {
    hide Overlay, RingBytes;
    var n := s.Tail();
    RingBytesUnfold(s.accepted + [pkt], n);
    if n >= BUF_SIZE {
      assert SlotOk(s, n - BUF_SIZE, cfg);
      RingBytesStable(s.accepted, [pkt], n - BUF_SIZE);
    }
  }

  lemma HandOutFits(slot: Slot, fate: Fate, i: nat, sent: nat, len: nat, handed: nat, now: int, cfg: Config)
    requires SlotFits(slot, fate, i, sent, len, handed, cfg) && slot.Pending() && i <= sent
    ensures var sent' := if slot.status.OccupiedNew? then sent + 1 else sent;
      SlotFits(HandOut(slot, now), fate, i, sent', len, handed + 1, cfg)
  {}

  /** Only the slot at sent itself feels that sent moves on. */
  lemma FitsAfterSend(slot: Slot, fate: Fate, i: nat, sent: nat, len: nat, handed: nat, cfg: Config)
    requires SlotFits(slot, fate, i, sent, len, handed, cfg) && i != sent
    ensures SlotFits(slot, fate, i, sent + 1, len, handed, cfg)
  {}

  lemma DequeueInv(s: State, now: int, cfg: Config)
    requires Inv(s, cfg) && s.curr < s.Tail()
    ensures Inv(Dequeue(s, now), cfg)
  {
    hide SlotFits, RingBytes;
    var s' := Dequeue(s, now);
    var c := s.curr;
    CurrStatus(s, cfg);
    forall i | 0 <= i < |s'.log| ensures SlotOk(s', i, cfg) {
      assert SlotOk(s, i, cfg);
      if i == c && s.log[c].Pending() {
        HandOutFits(s.log[i], s.fate[i], i, s.sent, |s.accepted[i]|, s.handed[i], now, cfg);
      } else if s'.sent != s.sent {
        FitsAfterSend(s.log[i], s.fate[i], i, s.sent, |s.accepted[i]|, s.handed[i], cfg);
      }
    }
  }

  /** The assertions of DequeuePkt on the slot it hands out. */
  predicate AssertsHold(slot: Slot)
  {
    slot.Pending() ==>
      0 < slot.len <= PKT_SIZE && slot.seqNum > 0 && (slot.status.OccupiedRetrans? ==> slot.retries > 0)
  }

  /** A packet handed out before was not empty, as the assertion demanded then. */
  ghost predicate SentWithContent(handed: seq<nat>, accepted: seq<Payload>)
  {
    |handed| == |accepted| && forall i | 0 <= i < |handed| && handed[i] > 0 :: accepted[i] != []
  }

  /** They fail for an empty packet that is handed out for the first time, and for nothing else. */
  lemma AssertsExactly(s: State, cfg: Config)
    requires Inv(s, cfg) && SentWithContent(s.handed, s.accepted) && s.curr < s.Tail()
    ensures s.curr < |s.accepted| && (AssertsHold(s.log[s.curr]) <==> (s.curr == s.sent ==> s.accepted[s.curr] != []))
  {
    hide RingBytes;
    assert SlotOk(s, s.curr, cfg);
  }

  /** The slot under the current pointer is new exactly when everything before was sent. */
  lemma CurrStatus(s: State, cfg: Config)
    requires Inv(s, cfg) && s.curr < s.Tail()
    ensures s.log[s.curr].status.OccupiedNew? <==> s.curr == s.sent
  {
    assert SlotOk(s, s.curr, cfg);
  }

  lemma AckedFits(slot: Slot, fate: Fate, i: nat, sent: nat, len: nat, handed: nat, ack: Ack, now: int, cfg: Config)
    requires SlotFits(slot, fate, i, sent, len, handed, cfg) && i < ack.endSeq <= sent
    ensures SlotFits(AckedSlot(slot, i + 1 in ack.nacks, now, cfg), AckedFate(slot, fate, i, ack),
                     i, sent, len, handed, cfg)
    ensures AckedSlot(slot, i + 1 in ack.nacks, now, cfg).pkt == slot.pkt
  {}

  lemma TimedOutFits(slot: Slot, fate: Fate, i: nat, sent: nat, len: nat, handed: nat, now: int, cfg: Config)
    requires SlotFits(slot, fate, i, sent, len, handed, cfg) && i < sent
    ensures SlotFits(TimedOutSlot(slot, now, cfg), TimedOutFate(slot, fate), i, sent, len, handed, cfg)
    ensures TimedOutSlot(slot, now, cfg).pkt == slot.pkt
  {}

  /** Reclaim keeps the invariant when every new slot fits and only slots in [head, hi) changed. */
  lemma ReclaimInv(s: State, log: seq<Slot>, fate: seq<Fate>, hi: nat, cfg: Config)
    requires Inv(s, cfg) && s.head <= hi <= s.sent && |log| == |fate| == |s.log|
    requires forall i | 0 <= i < |log| :: SlotFits(log[i], fate[i], i, s.sent, |s.accepted[i]|, s.handed[i], cfg)
    requires forall i | 0 <= i < |log| :: log[i].pkt == s.log[i].pkt
    requires forall i | 0 <= i < |log| && !(s.head <= i < hi) :: log[i] == s.log[i]
    ensures Inv(Reclaim(s, log, fate, hi), cfg)
  {
    hide SlotFits, RingBytes;
    var s' := Reclaim(s, log, fate, hi);
    forall i | 0 <= i < |s'.log| ensures SlotOk(s', i, cfg) {
      assert SlotOk(s, i, cfg);
    }
  }

  lemma AckInv(s: State, ack: Ack, now: int, cfg: Config)
    requires Inv(s, cfg) && ack.endSeq <= s.sent
    ensures Inv(AckStep(s, ack, now, cfg), cfg)
  {
    hide SlotFits, Reclaim, Placed, RingBytes;
    if ack.endSeq > s.head {
      var log, fate := AckedLog(s, ack, now, cfg), AckedFates(s, ack);
      forall i | 0 <= i < |log|
        ensures SlotFits(log[i], fate[i], i, s.sent, |s.accepted[i]|, s.handed[i], cfg) && log[i].pkt == s.log[i].pkt
      {
        assert SlotOk(s, i, cfg);
        if s.head <= i < ack.endSeq {
          AckedFits(s.log[i], s.fate[i], i, s.sent, |s.accepted[i]|, s.handed[i], ack, now, cfg);
        }
      }
      ReclaimInv(s, log, fate, ack.endSeq, cfg);
    }
  }

  lemma TimeOutInv(s: State, now: int, cfg: Config)
    requires Inv(s, cfg)
    ensures Inv(TimeOutStep(s, now, cfg), cfg)
  {
    hide SlotFits, Reclaim, Placed, RingBytes;
    var log, fate := TimedOutLog(s, now, cfg), TimedOutFates(s);
    forall i | 0 <= i < |log|
      ensures SlotFits(log[i], fate[i], i, s.sent, |s.accepted[i]|, s.handed[i], cfg) && log[i].pkt == s.log[i].pkt
    {
      assert SlotOk(s, i, cfg);
      if s.head <= i < s.sent {
        TimedOutFits(s.log[i], s.fate[i], i, s.sent, |s.accepted[i]|, s.handed[i], now, cfg);
      }
    }
    ReclaimInv(s, log, fate, s.sent, cfg);
  }

  // ---------------------------------------------------------------------------------
  // What a step does to each packet, told without the functions above
  // ---------------------------------------------------------------------------------

  /** The window takes a packet as long as it holds fewer than 500 slots, and drops it silently otherwise. */
  lemma EnqueueTakes(s: State, pkt: Payload, cfg: Config)
    requires Inv(s, cfg)
    ensures var s' := Enqueue(s, pkt, cfg);
      if |s.log| - s.head < 500 then
        && s'.accepted == s.accepted + [pkt] && |s'.log| == |s.log| + 1 && s'.log[..|s.log|] == s.log
        && s'.log[|s.log|].status.OccupiedNew? && s'.log[|s.log|].seqNum == |s.log| + 1
      else s' == s
  {
    hide RingBytes, Overlay, SlotOk;
  }

  /** Handing out starts the clock of the slot, and a retransmission costs one of its retries. */
  lemma DequeueStamps(s: State, now: int, cfg: Config)
    requires Inv(s, cfg) && s.curr < s.Tail()
    ensures var s' := Dequeue(s, now); var slot, slot' := s.log[s.curr], s'.log[s.curr];
      && s'.curr == s.curr + 1 && (forall i | 0 <= i < |s.log| && i != s.curr :: s'.log[i] == s.log[i])
      && (slot.status.OccupiedNew? || slot.status.OccupiedRetrans? ==>
            slot'.status.OccupiedOutbound? && slot'.time == now && slot'.pkt == slot.pkt
            && slot'.retries == (if slot.status.OccupiedNew? then cfg.retrans else slot.retries - 1)
            && s'.handed[s.curr] == s.handed[s.curr] + 1)
      && (slot.status.OccupiedOutbound? || slot.status.Empty? ==> slot' == slot && s'.handed == s.handed)
  {
    hide RingBytes;
    assert SlotOk(s, s.curr, cfg);
  }

  /** An ack on a slot of its range: what was received or can be sent no more is released. */
  lemma AckReleases(s: State, ack: Ack, now: int, cfg: Config, i: nat)
    requires Inv(s, cfg) && ack.endSeq <= s.sent && s.head <= i < ack.endSeq
    ensures var slot, slot' := s.log[i], AckStep(s, ack, now, cfg).log[i];
      && (slot'.status.Empty? <==>
            slot.status.Empty? || i + 1 !in ack.nacks || (slot.status.OccupiedOutbound? && slot.retries == 0))
      && (slot'.status.Empty? ==> slot'.seqNum == 0 && slot'.len == 0 && slot'.retries == 0)
      && (slot.status.OccupiedRetrans? && i + 1 in ack.nacks ==> slot' == slot)
  {
    hide RingBytes;
    assert SlotOk(s, i, cfg);
  }

  /**
   A nacked packet that is on its way and may be sent again is set for retransmission exactly when
   it was sent only once so far, or more than a round trip ago.
  */
  lemma NackRetransmits(s: State, ack: Ack, now: int, cfg: Config, i: nat)
    requires Inv(s, cfg) && ack.endSeq <= s.sent && s.head <= i < ack.endSeq && i + 1 in ack.nacks
    requires s.log[i].status.OccupiedOutbound? && s.log[i].retries > 0
    ensures AckStep(s, ack, now, cfg).log[i] ==
      if s.handed[i] == 1 || now - s.log[i].time > 1000 * cfg.rtt then s.log[i].(status := OccupiedRetrans)
      else s.log[i]
  {
    hide RingBytes;
    assert SlotOk(s, i, cfg);
  }

  /** Where the pointers are after slots of [lo, hi) changed and head and curr were recomputed. */
  ghost predicate PointersMoved(s: State, s': State, hi: nat)
    requires s.head <= hi <= |s'.log|
  {
    && s.head <= s'.head <= hi
    && (forall i | s.head <= i < s'.head :: s'.log[i].status.Empty?)
    && (s'.head < hi ==> !s'.log[s'.head].status.Empty?)
    && (forall i | s.head <= i < hi && s'.log[i].status.OccupiedRetrans? ::
          s'.curr <= i && s.head <= s'.curr < hi && s'.log[s'.curr].status.OccupiedRetrans?)
    && ((forall i | s.head <= i < hi :: !s'.log[i].status.OccupiedRetrans?) ==>
          s'.curr == if s.curr < s'.head then s'.head else s.curr)
    && s'.sent == s.sent && s'.accepted == s.accepted && s'.handed == s.handed
  }

  lemma ReclaimMoves(s: State, log: seq<Slot>, fate: seq<Fate>, hi: nat)
    requires s.head <= hi <= |log|
    ensures PointersMoved(s, Reclaim(s, log, fate, hi), hi)
  {
    var s' := Reclaim(s, log, fate, hi);
    forall i | s.head <= i < hi && log[i].status.OccupiedRetrans?
      ensures s'.curr <= i && s.head <= s'.curr < hi && log[s'.curr].status.OccupiedRetrans?
    {
      var r := FirstRetrans(log, s.head, hi, s.curr);
      assert s.head <= r < hi && log[r].status.OccupiedRetrans? && s'.head <= r;
    }
  }

  /**
   After an ack the current pointer stands at the first slot of its range that awaits
   retransmission; nothing outside the range changes.
  */
  lemma AckMoves(s: State, ack: Ack, now: int, cfg: Config)
    requires Inv(s, cfg) && s.head < ack.endSeq <= s.sent
    ensures var s' := AckStep(s, ack, now, cfg);
      && PointersMoved(s, s', ack.endSeq)
      && forall i | 0 <= i < |s.log| && !(s.head <= i < ack.endSeq) :: s'.log[i] == s.log[i]
  {
    hide Reclaim, AckedSlot, AckedFate, SlotOk, PointersMoved;
    ReclaimMoves(s, AckedLog(s, ack, now, cfg), AckedFates(s, ack), ack.endSeq);
    ReclaimKeepsLog(s, AckedLog(s, ack, now, cfg), AckedFates(s, ack), ack.endSeq);
  }

  lemma ReclaimKeepsLog(s: State, log: seq<Slot>, fate: seq<Fate>, hi: nat)
    requires s.head <= hi <= |log|
    ensures Reclaim(s, log, fate, hi).log == log && Reclaim(s, log, fate, hi).fate == fate
  {}

  /**
   A timeout on a slot that was sent: one that is on its way is set for retransmission exactly when
   it may be sent again and is older than 1.2 round trips, and released when it may not.
  */
  lemma TimeOutRetransmits(s: State, now: int, cfg: Config, i: nat)
    requires Inv(s, cfg) && s.head <= i < s.sent
    ensures var slot, slot' := s.log[i], TimeOutStep(s, now, cfg).log[i];
      && (slot.status.OccupiedOutbound? && slot.retries > 0 ==>
            slot' == if now - slot.time > 1200 * cfg.rtt then slot.(status := OccupiedRetrans) else slot)
      && (slot.status.OccupiedOutbound? && slot.retries == 0 ==>
            slot' == slot.(seqNum := 0, status := Empty, len := 0))
      && (!slot.status.OccupiedOutbound? ==> slot' == slot)
  {
    hide RingBytes;
    assert SlotOk(s, i, cfg);
  }

  lemma TimeOutMoves(s: State, now: int, cfg: Config)
    requires Inv(s, cfg)
    ensures var s' := TimeOutStep(s, now, cfg);
      && PointersMoved(s, s', s.sent)
      && forall i | 0 <= i < |s.log| && !(s.head <= i < s.sent) :: s'.log[i] == s.log[i]
  {
    hide Reclaim, TimedOutSlot, TimedOutFate, SlotOk, PointersMoved;
    ReclaimMoves(s, TimedOutLog(s, now, cfg), TimedOutFates(s), s.sent);
    ReclaimKeepsLog(s, TimedOutLog(s, now, cfg), TimedOutFates(s), s.sent);
  }

  /** Nothing waits to be sent again, and what is on its way may be sent again and is not yet overdue. */
  ghost predicate Quiet(s: State, now: int, cfg: Config)
    requires s.sent <= |s.log|
  {
    forall i | s.head <= i < s.sent ::
      s.log[i].status.Empty?
      || (s.log[i].status.OccupiedOutbound? && s.log[i].retries > 0 && now - s.log[i].time <= 1200 * cfg.rtt)
  }

  /** A timeout in a quiet window leaves every slot and every fate alone, and with a held head everything. */
  lemma QuietTimeOut(s: State, now: int, cfg: Config)
    requires Inv(s, cfg) && Quiet(s, now, cfg)
    ensures var s' := TimeOutStep(s, now, cfg);
      && s'.log == s.log && s'.fate == s.fate
      && (s.head == s.sent || !s.log[s.head].status.Empty? ==> s' == s)
  {
    hide RingBytes, SlotOk, Reclaim, PointersMoved;
    var log, fate := TimedOutLog(s, now, cfg), TimedOutFates(s);
    assert log == s.log;
    assert fate == s.fate;
    ReclaimKeepsLog(s, log, fate, s.sent);
    QuietPointers(s);
  }

  lemma QuietPointers(s: State)
    requires Pointers(s) && forall i | s.head <= i < s.sent :: !s.log[i].status.OccupiedRetrans?
    ensures s.head == s.sent || !s.log[s.head].status.Empty? ==> Reclaim(s, s.log, s.fate, s.sent) == s
  {}
}
