/** TxDataBuf: the ring buffer class, refining the state machine of SendWindow step by step. */
module TxBuffer {
  import opened SendWindow
  import opened Ring

  class TxDataBuf {
    const cfg: Config
    const slots: array<Slot>
    var head: nat
    var curr: nat
    var tail: nat
    ghost var model: State

    ghost predicate Valid()
      reads this, slots
    {
      && slots.Length == BUF_SIZE
      && head == model.head && curr == model.curr && tail == |model.log|
      && Inv(model, cfg) && Holds(slots[..], model.log, cfg)
    }

    constructor (cfg: Config)
      ensures Valid() && fresh(slots) && model == START && this.cfg == cfg
    {
      this.cfg := cfg;
      slots := new Slot[BUF_SIZE](_ => BlankSlot(cfg));
      head, curr, tail := 0, 0, 0;
      model := START;
    }

    predicate IsFull()
      reads this
    {
      head + BUF_SIZE == tail
    }

    /** Nothing left to hand out; the buffer may still hold packets waiting for an ack. */
    predicate IsEmpty()
      reads this
    {
      tail == curr
    }

    /** One atomic step: the packet is stored behind the tail, or dropped when the ring is full. */
    method EnqueuePkt(pkt: Payload)
      requires Valid() && FitsSlot(pkt)
      modifies this`tail, this`model, slots
      ensures Valid()
      ensures model == Enqueue(old(model), pkt, cfg)
    {
      hide Holds, Inv, SlotOk, Overlay, RingBytes, Leftover, Enqueue;
      InvPointers(model, cfg);
      EnqueueInv(model, pkt, cfg);
      EnqueueIs(model, pkt, cfg);
      model := Enqueue(model, pkt, cfg);
      var seqNum := tail + 1;
      if !IsFull() {
        ghost var log := old(model.log);
        var index := tail % BUF_SIZE;
        tail := tail + 1;
        EmptyBelowHead(old(model), cfg);
        TailIsFree(slots[..], log, cfg, head);
        assert slots[..][index] == slots[index];
        assert slots[index].status.Empty?;
        var bytes := Overlay(pkt, slots[index].pkt);
        var v := Slot(seqNum, OccupiedNew, |pkt|, cfg.retrans, slots[index].time, bytes);
        HoldsAppend(slots[..], log, cfg, v);
        slots[index] := v;
      }
    }

    /**
     timedOut is what the wait for a packet ended with; without a timeout a slot is available.
     The caller gets the ring position, and copies the packet from there later. ok tells whether
     the assertions hold; the program stops otherwise.
    */
    method DequeuePkt(timedOut: bool, now: int)
      returns (ok: bool, isTimeout: bool, seqNum: nat, len: nat, status: Status, retries: nat, index: nat)
      requires Valid() && (timedOut || !IsEmpty())
      modifies this`curr, this`model, slots
      ensures isTimeout == timedOut && index < BUF_SIZE
      ensures ok <==> timedOut || AssertsHold(old(model.log[model.curr]))
      ensures ok ==> Valid()
      ensures timedOut ==> model == old(model)
      ensures ok && !timedOut ==> model == Dequeue(old(model), now)
      ensures ok && !timedOut ==> var slot := old(model.log[model.curr]);
                seqNum == slot.seqNum && len == slot.len && status == slot.status
      ensures ok && !timedOut && status in {OccupiedNew, OccupiedRetrans} ==>
                seqNum == old(curr) + 1 && retries == model.log[old(curr)].retries &&
                1 <= len == |model.accepted[old(curr)]| <= PKT_SIZE &&
                index == old(curr) % BUF_SIZE && len <= |slots[index].pkt| &&
                  slots[index].pkt[..len] == model.accepted[old(curr)]
    {
      hide Holds, Inv, RingBytes;
      ok, isTimeout, seqNum, len, status, retries, index := true, timedOut, 0, 0, Empty, 0, 0;
      if !timedOut {
        InvPointers(model, cfg);
        RingSlot(slots[..], model, cfg);
        DequeueInv(model, now, cfg);
        index := curr % BUF_SIZE;
        ghost var log := model.log;
        ghost var i := curr;
        model := Dequeue(model, now);
        curr := curr + 1;
        var slot := slots[index];
        seqNum, len, status, retries := slot.seqNum, slot.len, slot.status, slot.retries;
        if status == OccupiedNew || status == OccupiedRetrans {
          ok := len > 0 && len <= PKT_SIZE && seqNum > 0;
          if !ok {
            return;
          }
          if status == OccupiedRetrans {
            ok := retries > 0;
            if !ok {
              return;
            }
            retries := retries - 1;
          }
          var v := slot.(retries := retries, status := OccupiedOutbound, time := now);
          HoldsUpdate(slots[..], log, cfg, i, v);
          slots[index] := v;
        }
      }
    }

    /** The end of an ack or timeout: head and current pointer move to their final places. */
    method MovePointers(headFinal: nat, currFinal0: nat, ghost next: State)
      requires slots.Length == BUF_SIZE && tail == |next.log| && head <= headFinal <= tail
      requires Holds(slots[..], next.log, cfg) && Inv(next, cfg)
      requires next.head == headFinal && next.curr == Max(headFinal, currFinal0)
      modifies this`head, this`curr, this`model
      ensures Valid() && model == next
    {
      hide Holds, Inv;
      var currFinal := currFinal0;
      if currFinal < headFinal {
        currFinal := headFinal;
      }
      if headFinal > head {
        head := headFinal;
      }
      if currFinal != curr {
        curr := currFinal;
      }
      model := next;
    }
  }

  lemma EnqueueIs(s: State, pkt: Payload, cfg: Config)
    requires Inv(s, cfg)
    ensures Enqueue(s, pkt, cfg).head == s.head && Enqueue(s, pkt, cfg).curr == s.curr
    ensures Enqueue(s, pkt, cfg).log ==
      if s.Tail() == s.head + BUF_SIZE then s.log
      else s.log + [NewSlot(s.Tail(), pkt, cfg, Leftover(s.log, s.Tail(), cfg))]
  {}

  lemma InvPointers(s: State, cfg: Config)
    requires Inv(s, cfg)
    ensures Pointers(s)
  {}

  lemma EmptyBelowHead(s: State, cfg: Config)
    requires Inv(s, cfg)
    ensures s.head <= |s.log| && forall i | 0 <= i < s.head :: s.log[i].status.Empty?
  {
    forall i | 0 <= i < s.head ensures s.log[i].status.Empty? { assert SlotOk(s, i, cfg); }
  }

  /** What a valid buffer knows about the slot under the current pointer. */
  lemma RingSlot(slots: seq<Slot>, s: State, cfg: Config)
    requires Inv(s, cfg) && Holds(slots, s.log, cfg) && s.curr < |s.log|
    ensures Recent(s.curr, |s.log|)
    ensures Pointers(s) && slots[s.curr % BUF_SIZE] == s.log[s.curr] && SlotOk(s, s.curr, cfg)
  {}
}
