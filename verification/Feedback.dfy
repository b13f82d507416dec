/** HandleDataAck and HandleTimeOut: the loops over the ring that implement AckStep and TimeOutStep. */
module Feedback {
  import opened SendWindow
  import opened Ring
  import opened TxBuffer

  const MAX_DUP_ACKS: nat := 10

  // ---------------------------------------------------------------------------------
  // What the scanning loops have established up to an index
  // ---------------------------------------------------------------------------------

  /** Slots below `at` already have their target value, the others are untouched. */
  ghost predicate Progress(before: seq<Slot>, target: seq<Slot>, now: seq<Slot>, at: nat)
  {
    && |before| == |target| == |now|
    && forall i | 0 <= i < |now| :: now[i] == if i < at then target[i] else before[i]
  }

  ghost predicate HeadSoFar(log: seq<Slot>, head: nat, at: nat, headFinal: nat)
  {
    && head <= headFinal <= at <= |log|
    && (forall i | head <= i < headFinal :: log[i].status.Empty?)
    && (headFinal < at ==> !log[headFinal].status.Empty?)
  }

  ghost predicate CurrSoFar(log: seq<Slot>, head: nat, at: nat, curr: nat, currFinal: nat, isFirst: bool)
  {
    && head <= at <= |log|
    && (isFirst ==> currFinal == curr && forall i | head <= i < at :: !log[i].status.OccupiedRetrans?)
    && (!isFirst ==> head <= currFinal < at && log[currFinal].status.OccupiedRetrans?
                     && forall i | head <= i < currFinal :: !log[i].status.OccupiedRetrans?)
  }

  lemma HeadFound(log: seq<Slot>, head: nat, at: nat, headFinal: nat)
    requires HeadSoFar(log, head, at, headFinal)
    ensures headFinal == FirstKept(log, head, at)
  {}

  lemma CurrFound(log: seq<Slot>, head: nat, at: nat, curr: nat, currFinal: nat, isFirst: bool)
    requires CurrSoFar(log, head, at, curr, currFinal, isFirst)
    ensures currFinal == FirstRetrans(log, head, at, curr)
  {}

  lemma ProgressStep(before: seq<Slot>, target: seq<Slot>, now: seq<Slot>, at: nat)
    requires Progress(before, target, now, at) && at < |now|
    ensures now[at] == before[at] && Progress(before, target, now[at := target[at]], at + 1)
  {}

  lemma ProgressDone(before: seq<Slot>, target: seq<Slot>, now: seq<Slot>, at: nat)
    requires Progress(before, target, now, at) && at <= |now|
    requires forall i | at <= i < |target| :: target[i] == before[i]
    ensures now == target
  {}

  lemma ProgressStart(before: seq<Slot>, target: seq<Slot>, at: nat)
    requires |before| == |target| && at <= |before| && forall i | 0 <= i < at :: target[i] == before[i]
    ensures Progress(before, target, before, at)
  {}

  /** cnt nacks lie at or below logical index `at`, the rest are to come. */
  ghost predicate Cursor(nacks: seq<nat>, at: nat, cnt: nat)
  {
    && cnt <= |nacks|
    && (forall j | 0 <= j < cnt :: nacks[j] <= at)
    && forall j | cnt <= j < |nacks| :: nacks[j] > at
  }

  /** The cursor decides membership of the next sequence number. */
  lemma CursorDecides(ack: Ack, at: nat, cnt: nat)
    requires ack.WellFormed() && Cursor(ack.nacks, at, cnt)
    ensures at + 1 in ack.nacks <==> cnt < |ack.nacks| && ack.nacks[cnt] == at + 1
    ensures Cursor(ack.nacks, at + 1, if at + 1 in ack.nacks then cnt + 1 else cnt)
  {
    if at + 1 in ack.nacks {
      var j :| 0 <= j < |ack.nacks| && ack.nacks[j] == at + 1;
    }
  }

  /** The target of an ack scan. */
  lemma AckTarget(s: State, ack: Ack, now: int, cfg: Config, i: nat)
    requires i < |s.log| && s.head <= i < ack.endSeq
    ensures AckedLog(s, ack, now, cfg)[i] == AckedSlot(s.log[i], i + 1 in ack.nacks, now, cfg)
  {}

  /** Clearing a slot that is already empty changes nothing. */
  lemma ClearedEmpty(s: State, i: nat, cfg: Config)
    requires Inv(s, cfg) && i < |s.log|
    ensures s.log[i].status.Empty? ==> s.log[i].Cleared() == s.log[i]
    ensures i < s.sent ==> !s.log[i].status.OccupiedNew?
    ensures !s.log[i].status.Empty? ==> s.log[i].seqNum == i + 1
  {
    assert SlotOk(s, i, cfg);
  }

  /** One more slot scanned: the head moves over an empty slot, the first retransmission is remembered. */
  lemma ScanStep(log: seq<Slot>, head: nat, at: nat, headFinal: nat, curr: nat, currFinal: nat, isFirst: bool)
    requires HeadSoFar(log, head, at, headFinal) && CurrSoFar(log, head, at, curr, currFinal, isFirst)
    requires at < |log|
    ensures HeadSoFar(log, head, at + 1,
              if log[at].status.Empty? && headFinal == at then headFinal + 1 else headFinal)
    ensures log[at].status.OccupiedRetrans? && isFirst ==> CurrSoFar(log, head, at + 1, curr, at, false)
    ensures !(log[at].status.OccupiedRetrans? && isFirst) ==> CurrSoFar(log, head, at + 1, curr, currFinal, isFirst)
  {}

  class ClientContext {
    const buf: TxDataBuf
    const maxContiguousTimeOut: nat
    var expectDataAckSeq: nat
    var dupDataAckCnt: nat
    var contiguousTimeOut: nat

    constructor (buf: TxDataBuf, maxContiguousTimeOut: nat)
      ensures this.buf == buf && this.maxContiguousTimeOut == maxContiguousTimeOut
      ensures expectDataAckSeq == 1 && dupDataAckCnt == contiguousTimeOut == 0
    {
      this.buf, this.maxContiguousTimeOut := buf, maxContiguousTimeOut;
      expectDataAckSeq, dupDataAckCnt, contiguousTimeOut := 1, 0, 0;
    }

    /** The new head implied by the nacks alone, and the first nack not below it. */
    method FirstNack(ack: Ack, head: nat) returns (headFinal: nat, nackCnt: nat)
      requires ack.WellFormed() && head < ack.endSeq
      ensures head <= headFinal <= ack.endSeq && Cursor(ack.nacks, headFinal, nackCnt)
      ensures forall seqNum | head < seqNum <= headFinal :: seqNum !in ack.nacks
      ensures |ack.nacks| == 0 ==> headFinal == ack.endSeq
    {
      var nacks := ack.nacks;
      headFinal, nackCnt := head, 0;
      if |nacks| == 0 {
        headFinal := ack.endSeq;
      } else {
        while nacks[nackCnt] - 1 < headFinal
          invariant nackCnt < |nacks| && headFinal == head
          invariant forall j | 0 <= j < nackCnt :: nacks[j] <= head
        {
          nackCnt := nackCnt + 1;
          if nackCnt == |nacks| {
            break;
          }
        }
        if nackCnt < |nacks| {
          if nacks[nackCnt] - 1 > headFinal {
            headFinal := nacks[nackCnt] - 1;
          }
        }
      }
    }

    /** Everything below the first nack was received: release those slots. */
    method ReleaseReceived(ack: Ack, headFinal: nat, ghost s: State, now: int) returns (ghost log: seq<Slot>)
      requires Inv(s, buf.cfg) && buf.slots.Length == BUF_SIZE && Holds(buf.slots[..], s.log, buf.cfg)
      requires s.head == buf.head && s.head <= headFinal <= ack.endSeq <= s.sent
      requires forall seqNum | s.head < seqNum <= headFinal :: seqNum !in ack.nacks
      modifies buf.slots
      ensures |log| == |s.log| && Holds(buf.slots[..], log, buf.cfg)
      ensures Progress(s.log, AckedLog(s, ack, now, buf.cfg), log, headFinal)
      ensures forall i | s.head <= i < headFinal :: AckedLog(s, ack, now, buf.cfg)[i].status.Empty?
    {
      hide Holds, Inv, AckedLog, Progress, Pointers;
      InvPointers(s, buf.cfg);
      ghost var target := AckedLog(s, ack, now, buf.cfg);
      log := s.log;
      OutsideAck(s, ack, now, buf.cfg);
      ProgressStart(s.log, target, buf.head);
      for index := buf.head to headFinal
        invariant |log| == |s.log| && Holds(buf.slots[..], log, buf.cfg) && Progress(s.log, target, log, index)
        invariant forall i | s.head <= i < index :: target[i].status.Empty?
      {
        ProgressStep(s.log, target, log, index);
        AckTarget(s, ack, now, buf.cfg, index);
        ClearedEmpty(s, index, buf.cfg);
        RingAt(buf.slots[..], log, buf.cfg, s.head, index);
        var v := buf.slots[index % BUF_SIZE].Cleared();
        HoldsUpdate(buf.slots[..], log, buf.cfg, index, v);
        buf.slots[index % BUF_SIZE] := v;
        log := log[index := v];
      }
    }

    /** Slots from the first nack to the end of the ack. */
    method ScanAck(ack: Ack, first: nat, firstCnt: nat, now: int, ghost s: State, ghost log0: seq<Slot>)
      returns (headFinal: nat, currFinal: nat, nackCnt: nat, ghost log: seq<Slot>, ghost isFirst: bool)
      requires Inv(s, buf.cfg) && buf.slots.Length == BUF_SIZE && Holds(buf.slots[..], log0, buf.cfg)
      requires |log0| == |s.log| && s.head == buf.head && s.curr == buf.curr && ack.WellFormed()
      requires s.head <= first <= ack.endSeq <= s.sent && Cursor(ack.nacks, first, firstCnt)
      requires Progress(s.log, AckedLog(s, ack, now, buf.cfg), log0, first)
      requires HeadSoFar(AckedLog(s, ack, now, buf.cfg), s.head, first, first)
      requires CurrSoFar(AckedLog(s, ack, now, buf.cfg), s.head, first, s.curr, s.curr, true)
      modifies buf.slots
      ensures |log| == |s.log| && Holds(buf.slots[..], log, buf.cfg)
      ensures Progress(s.log, AckedLog(s, ack, now, buf.cfg), log, ack.endSeq)
      ensures HeadSoFar(AckedLog(s, ack, now, buf.cfg), s.head, ack.endSeq, headFinal)
      ensures CurrSoFar(AckedLog(s, ack, now, buf.cfg), s.head, ack.endSeq, s.curr, currFinal, isFirst)
      ensures nackCnt == |ack.nacks|
    {
      hide Holds, Inv, AckedLog, Progress, Pointers, HeadSoFar, CurrSoFar, Cursor;
      ghost var target := AckedLog(s, ack, now, buf.cfg);
      InvPointers(s, buf.cfg);
      log := log0;
      headFinal, currFinal, nackCnt := first, buf.curr, firstCnt;
      var isFirstUpdate := true;
      for index := first to ack.endSeq
        invariant |log| == |s.log| && Holds(buf.slots[..], log, buf.cfg) && Progress(s.log, target, log, index)
        invariant HeadSoFar(target, s.head, index, headFinal)
        invariant CurrSoFar(target, s.head, index, s.curr, currFinal, isFirstUpdate)
        invariant Cursor(ack.nacks, index, nackCnt)
      {
        ProgressStep(s.log, target, log, index);
        AckTarget(s, ack, now, buf.cfg, index);
        ClearedEmpty(s, index, buf.cfg);
        RingAt(buf.slots[..], log, buf.cfg, s.head, index);
        CursorDecides(ack, index, nackCnt);
        ScanStep(target, s.head, index, headFinal, s.curr, currFinal, isFirstUpdate);
        var v, nackCnt', retransmit := AckSlot(buf.slots[index % BUF_SIZE], ack, index, nackCnt, now, buf.cfg);
        assert v == target[index];
        if v.status.Empty? && headFinal == index {
          headFinal := headFinal + 1;  // reclaim buffer
        }
        if retransmit && isFirstUpdate {
          isFirstUpdate := false;
          currFinal := index;  // start retransmission from here
        }
        nackCnt := nackCnt';
        HoldsUpdate(buf.slots[..], log, buf.cfg, index, v);
        buf.slots[index % BUF_SIZE] := v;
        log := log[index := v];
      }
      CursorAtEnd(ack, nackCnt);
      isFirst := isFirstUpdate;
    }

    /** One slot of the scan: its new value, the advanced nack cursor, and whether it awaits retransmission. */
    method AckSlot(slot: Slot, ack: Ack, index: nat, nackCnt: nat, now: int, cfg: Config)
      returns (v: Slot, cnt: nat, retransmit: bool)
      requires ack.WellFormed() && Cursor(ack.nacks, index, nackCnt)
      requires buf.head <= index < ack.endSeq <= buf.head + BUF_SIZE
      requires !slot.status.OccupiedNew? && (!slot.status.Empty? ==> slot.seqNum == index + 1)
      requires slot.status.Empty? ==> slot.Cleared() == slot
      ensures v == AckedSlot(slot, index + 1 in ack.nacks, now, cfg)
      ensures cnt == if index + 1 in ack.nacks then nackCnt + 1 else nackCnt
      ensures retransmit <==> v.status.OccupiedRetrans?
    {
      hide Cursor;
      CursorDecides(ack, index, nackCnt);
      CursorBounds(ack, index, nackCnt);
      var nacks := ack.nacks;
      v, cnt, retransmit := slot, nackCnt, false;
      if slot.status.OccupiedOutbound? {
        if nackCnt < |nacks| {
          if index + 1 == nacks[nackCnt] {  // lost
            if slot.retries == 0 {
              v := slot.Cleared();
            } else if now - slot.time > 1000 * cfg.rtt || slot.retries == cfg.retrans {
              v := slot.(status := OccupiedRetrans);
              retransmit := true;
            }
            cnt := nackCnt + 1;
          } else {  // received, between two losses
            v := slot.Cleared();
          }
        } else {  // received
          v := slot.Cleared();
        }
      } else if slot.status.Empty? {
        if nackCnt < |nacks| {
          if (nacks[nackCnt] - 1) % BUF_SIZE == index % BUF_SIZE {  // dropped earlier
            SameRingPosition(index, nacks[nackCnt] - 1);
            cnt := nackCnt + 1;
          }
        }
      } else {  // still waiting for retransmission
        if nackCnt < |nacks| {
          if nacks[nackCnt] == slot.seqNum {
            retransmit := true;
            cnt := nackCnt + 1;
          } else {
            v := slot.Cleared();
          }
        } else {
          v := slot.Cleared();
        }
      }
    }

    /**
     An ack that is out of order, empty, or entirely below the window leaves the buffer alone; one
     that is in order but acknowledges nothing the window still holds is a duplicate.
    */
    method HandleDataAck(ackSeq: nat, ack: Ack, now: int) returns (dupAckTimeOut: bool)
      requires buf.Valid() && ack.WellFormed() && ack.endSeq <= buf.model.sent
      modifies this, buf, buf.slots
      ensures buf.Valid()
      ensures buf.model ==
          if ackSeq >= old(expectDataAckSeq) && ack.endSeq > old(buf.head)
          then AckStep(old(buf.model), ack, now, buf.cfg) else old(buf.model)
      ensures expectDataAckSeq == if ackSeq < old(expectDataAckSeq) then old(expectDataAckSeq) else ackSeq + 1
      ensures dupAckTimeOut <==>
          ackSeq >= old(expectDataAckSeq) && 1 <= ack.endSeq <= old(buf.head)
          && old(dupDataAckCnt) + 1 >= MAX_DUP_ACKS
      ensures dupDataAckCnt ==
          if dupAckTimeOut || (ackSeq >= old(expectDataAckSeq) && ack.endSeq > old(buf.head)) then 0
          else if ackSeq >= old(expectDataAckSeq) && 1 <= ack.endSeq then old(dupDataAckCnt) + 1
          else old(dupDataAckCnt)
      ensures contiguousTimeOut ==
          if dupAckTimeOut then maxContiguousTimeOut
          else if ackSeq >= old(expectDataAckSeq) && ack.endSeq > old(buf.head) then 0
          else old(contiguousTimeOut)
    {
      hide Holds, Inv, AckedLog, Progress, HeadSoFar, CurrSoFar, Cursor, FirstKept, FirstRetrans;
      if ackSeq < expectDataAckSeq {
        return false;
      }
      expectDataAckSeq := ackSeq + 1;
      if ack.endSeq == 0 {
        return false;
      }
      if ack.endSeq - 1 < buf.head {
        dupDataAckCnt := dupDataAckCnt + 1;
        if dupDataAckCnt >= MAX_DUP_ACKS {
          dupDataAckCnt := 0;
          contiguousTimeOut := maxContiguousTimeOut;
          return true;
        }
        return false;
      }
      dupDataAckCnt, contiguousTimeOut := 0, 0;
      ghost var s := buf.model;
      InvPointers(s, buf.cfg);
      AckInv(s, ack, now, buf.cfg);
      var first, nackCnt := FirstNack(ack, buf.head);
      ghost var log := ReleaseReceived(ack, first, s, now);
      ghost var target := AckedLog(s, ack, now, buf.cfg);
      ScanStart(target, s.head, first, s.curr);
      var headFinal, currFinal := first, buf.curr;
      ghost var isFirst := true;
      if |ack.nacks| > 0 {
        headFinal, currFinal, nackCnt, log, isFirst := ScanAck(ack, first, nackCnt, now, s, log);
        assert nackCnt == |ack.nacks|;  // the warning about unmatched nacks is never printed
      }
      OutsideAck(s, ack, now, buf.cfg);
      ProgressDone(s.log, target, log, ack.endSeq);
      HeadFound(target, s.head, ack.endSeq, headFinal);
      CurrFound(target, s.head, ack.endSeq, s.curr, currFinal, isFirst);
      ReclaimIs(s, target, AckedFates(s, ack), ack.endSeq);
      buf.MovePointers(headFinal, currFinal, AckStep(s, ack, now, buf.cfg));
      dupAckTimeOut := false;
    }

    /** Timed-out slots from head to the first packet that was never sent. */
    method ScanTimeOut(now: int, ghost s: State)
      returns (headFinal: nat, currFinal: nat, anyExpired: bool, ghost log: seq<Slot>, ghost isFirst: bool)
      requires Inv(s, buf.cfg) && buf.slots.Length == BUF_SIZE && Holds(buf.slots[..], s.log, buf.cfg)
      requires s.head == buf.head && s.curr == buf.curr && buf.tail == |s.log|
      modifies buf.slots
      ensures |log| == |s.log| && Holds(buf.slots[..], log, buf.cfg) && s.head <= s.sent <= |s.log|
      ensures Progress(s.log, TimedOutLog(s, now, buf.cfg), log, s.sent)
      ensures HeadSoFar(TimedOutLog(s, now, buf.cfg), s.head, s.sent, headFinal)
      ensures CurrSoFar(TimedOutLog(s, now, buf.cfg), s.head, s.sent, s.curr, currFinal, isFirst)
      ensures anyExpired <==> AnyExpired(s, now, buf.cfg)
    {
      hide Holds, Inv, TimedOutLog, TimedOutSlot, Expires, Progress, HeadSoFar, CurrSoFar;
      ghost var target := TimedOutLog(s, now, buf.cfg);
      InvPointers(s, buf.cfg);
      log := s.log;
      headFinal, currFinal, anyExpired := buf.head, buf.curr, false;
      var isFirstUpdate := true;
      OutsideTimeOut(s, now, buf.cfg);
      ProgressStart(s.log, target, buf.head);
      ScanStart(target, s.head, s.head, s.curr);
      var index := buf.head;
      while index < buf.tail
        invariant buf.head <= index <= s.sent
        invariant |log| == |s.log| && Holds(buf.slots[..], log, buf.cfg) && Progress(s.log, target, log, index)
        invariant HeadSoFar(target, s.head, index, headFinal)
        invariant CurrSoFar(target, s.head, index, s.curr, currFinal, isFirstUpdate)
        invariant anyExpired <==> exists i | s.head <= i < index :: Expires(s.log[i], now, buf.cfg)
        decreases buf.tail - index
      {
        ProgressStep(s.log, target, log, index);
        RingAt(buf.slots[..], log, buf.cfg, s.head, index);
        SlotStatus(s, index, buf.cfg);
        var slot := buf.slots[index % BUF_SIZE];
        if slot.status.OccupiedNew? {
          break;
        }
        TimeOutTarget(s, now, buf.cfg, index);
        ScanStep(target, s.head, index, headFinal, s.curr, currFinal, isFirstUpdate);
        var v, overdue := TimeOutSlot(slot, now, buf.cfg);
        if overdue {
          anyExpired := true;
        }
        if v.status.OccupiedRetrans? && isFirstUpdate {
          currFinal := slot.seqNum - 1;
          isFirstUpdate := false;
        }
        if v.status.Empty? && headFinal == index {
          headFinal := headFinal + 1;
        }
        assert v == target[index];
        HoldsUpdate(buf.slots[..], log, buf.cfg, index, v);
        buf.slots[index % BUF_SIZE] := v;
        log := log[index := v];
        index := index + 1;
      }
      StopsAtSent(s, index, buf.cfg);
      isFirst := isFirstUpdate;
    }

    /** One slot of the scan: its new value, and whether a packet on its way is overdue. */
    method TimeOutSlot(slot: Slot, now: int, cfg: Config) returns (v: Slot, overdue: bool)
      ensures v == TimedOutSlot(slot, now, cfg)
      ensures overdue <==> Expires(slot, now, cfg)
      ensures slot.status.Empty? ==> v == slot
    {
      v, overdue := slot, false;
      if slot.status.OccupiedOutbound? {
        if slot.retries == 0 {  // have to drop this packet
          v := slot.Cleared();
        } else if 10 * (now - slot.time) > 12 * 1000 * cfg.rtt {
          overdue := true;
          v := slot.(status := OccupiedRetrans);
        }
      }
    }

    /** highLoss tells the caller to assume the worst loss rates and to flush the raw packet records. */
    method HandleTimeOut(now: int) returns (highLoss: bool)
      requires buf.Valid()
      modifies this`contiguousTimeOut, buf, buf.slots
      ensures buf.Valid() && buf.model == TimeOutStep(old(buf.model), now, buf.cfg)
      ensures highLoss <==>
                (if old(AnyExpired(buf.model, now, buf.cfg)) then old(contiguousTimeOut) + 1
                 else old(contiguousTimeOut)) >= maxContiguousTimeOut
      ensures contiguousTimeOut ==
        if !highLoss && old(AnyExpired(buf.model, now, buf.cfg)) then old(contiguousTimeOut) + 1 else 0
    {
      hide Holds, Inv, TimedOutLog, Progress, HeadSoFar, CurrSoFar, FirstKept, FirstRetrans;
      ghost var s := buf.model;
      InvPointers(s, buf.cfg);
      TimeOutInv(s, now, buf.cfg);
      var headFinal, currFinal, anyExpired;
      ghost var log, isFirst;
      headFinal, currFinal, anyExpired, log, isFirst := ScanTimeOut(now, s);
      ghost var target := TimedOutLog(s, now, buf.cfg);
      OutsideTimeOut(s, now, buf.cfg);
      ProgressDone(s.log, target, log, s.sent);
      HeadFound(target, s.head, s.sent, headFinal);
      CurrFound(target, s.head, s.sent, s.curr, currFinal, isFirst);
      ReclaimIs(s, target, TimedOutFates(s), s.sent);
      buf.MovePointers(headFinal, currFinal, TimeOutStep(s, now, buf.cfg));
      if anyExpired {
        contiguousTimeOut := contiguousTimeOut + 1;
      } else if contiguousTimeOut < maxContiguousTimeOut {
        contiguousTimeOut := 0;
      }
      highLoss := contiguousTimeOut >= maxContiguousTimeOut;
      if highLoss {
        contiguousTimeOut := 0;
      }
    }
  }

  lemma CursorAtEnd(ack: Ack, cnt: nat)
    requires ack.WellFormed() && Cursor(ack.nacks, ack.endSeq, cnt)
    ensures cnt == |ack.nacks|
  {
    CursorBounds(ack, ack.endSeq, cnt);
  }

  /** A slot that the next timeout turns into a retransmission. */
  predicate Expires(slot: Slot, now: int, cfg: Config)
  {
    slot.status.OccupiedOutbound? && slot.retries > 0 && now - slot.time > 1200 * cfg.rtt
  }

  ghost predicate AnyExpired(s: State, now: int, cfg: Config)
    requires s.sent <= |s.log|
  {
    exists i | s.head <= i < s.sent :: Expires(s.log[i], now, cfg)
  }

  /** Some packet on its way that may be sent again is older than 1.2 round trips. */
  lemma ExpiredIs(s: State, now: int, cfg: Config)
    requires s.sent <= |s.log|
    ensures AnyExpired(s, now, cfg) <==>
      exists i :: s.head <= i < s.sent && s.log[i].status.OccupiedOutbound? && s.log[i].retries > 0
                  && now - s.log[i].time > 1200 * cfg.rtt
  {
    if AnyExpired(s, now, cfg) {
      var i :| s.head <= i < s.sent && Expires(s.log[i], now, cfg);
      assert s.log[i].status.OccupiedOutbound?;
    }
    if i :| s.head <= i < s.sent && s.log[i].status.OccupiedOutbound? && s.log[i].retries > 0
            && now - s.log[i].time > 1200 * cfg.rtt {
      assert Expires(s.log[i], now, cfg);
    }
  }

  lemma SlotStatus(s: State, i: nat, cfg: Config)
    requires Inv(s, cfg) && i < |s.log|
    ensures s.log[i].status.OccupiedNew? <==> i >= s.sent
    ensures !s.log[i].status.Empty? ==> s.log[i].seqNum == i + 1
  {
    assert SlotOk(s, i, cfg);
  }

  lemma TimeOutTarget(s: State, now: int, cfg: Config, i: nat)
    requires s.head <= i < s.sent <= |s.log|
    ensures TimedOutLog(s, now, cfg)[i] == TimedOutSlot(s.log[i], now, cfg)
  {}

  lemma OutsideTimeOut(s: State, now: int, cfg: Config)
    ensures forall i | 0 <= i < |s.log| && !(s.head <= i < s.sent) :: TimedOutLog(s, now, cfg)[i] == s.log[i]
  {}

  /** The scan stops at the tail or at a new packet, and both mean index == sent. */
  lemma StopsAtSent(s: State, index: nat, cfg: Config)
    requires Inv(s, cfg) && index <= s.sent
    requires index >= |s.log| || s.log[index].status.OccupiedNew?
    ensures index == s.sent
  {
    if index < |s.log| { assert SlotOk(s, index, cfg); }
  }

  lemma CursorBounds(ack: Ack, index: nat, cnt: nat)
    requires ack.WellFormed() && Cursor(ack.nacks, index, cnt)
    ensures cnt <= |ack.nacks| && (cnt < |ack.nacks| ==> index < ack.nacks[cnt] <= ack.endSeq)
  {}

  lemma SameRingPosition(i: nat, j: nat)
    requires i <= j < i + BUF_SIZE && i % BUF_SIZE == j % BUF_SIZE
    ensures i == j
  {
    if i < j { DifferentPositions(i, j); }
  }

  /** Nothing but empty slots below the first nack. */
  lemma ScanStart(target: seq<Slot>, head: nat, first: nat, curr: nat)
    requires head <= first <= |target| && forall i | head <= i < first :: target[i].status.Empty?
    ensures HeadSoFar(target, head, first, first) && CurrSoFar(target, head, first, curr, curr, true)
  {}

  lemma ReclaimIs(s: State, log: seq<Slot>, fate: seq<Fate>, hi: nat)
    requires s.head <= hi <= |log|
    ensures var r := Reclaim(s, log, fate, hi);
      r.log == log && r.head == FirstKept(log, s.head, hi) && r.sent == s.sent &&
      r.curr == Max(r.head, FirstRetrans(log, s.head, hi, s.curr))
  {}

  lemma RingAt(slots: seq<Slot>, log: seq<Slot>, cfg: Config, head: nat, i: nat)
    requires Holds(slots, log, cfg) && head <= i < |log| <= head + BUF_SIZE
    ensures Recent(i, |log|)
    ensures |slots| == BUF_SIZE && slots[i % BUF_SIZE] == log[i]
  {}

  lemma OutsideAck(s: State, ack: Ack, now: int, cfg: Config)
    ensures forall i | 0 <= i < |s.log| && !(s.head <= i < ack.endSeq) :: AckedLog(s, ack, now, cfg)[i] == s.log[i]
  {}
}
