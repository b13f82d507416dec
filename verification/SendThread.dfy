/** The sending thread itself: its local variables, its encoder and rate maker, and one iteration of its loop. */
module SendThread {
  import opened Gf
  import opened Linear
  import opened RsCode
  import opened Fec
  import opened Codec
  import opened BatchCodec
  import opened Transfer
  import opened SendWindow
  import opened Ring
  import opened TxBuffer
  import opened Sender
  import Packets
  import Redundancy
  import ScoutRate

  /** DIFS and three slot times, in microseconds. */
  const EXTRA_WAIT: nat := 55

  // ---------------------------------------------------------------------------------
  // What goes on the air
  // ---------------------------------------------------------------------------------

  /** One coded packet with its header; the receiver needs k, n, the index and the lengths to decode. */
  datatype Frame = Frame(
    rawSeq: nat, batchId: nat, startSeq: nat, ind: nat, k: nat, n: nat, lens: seq<nat>, rate: nat, payload: seq<gf>)

  /**
   What the rate maker saw when it last decided on a batch: whether duplication is enabled, whether
   the selected rate loses much or is the lowest one, and how many packets sample other rates.
  */
  datatype Decision = Decision(
    mode: ScoutRate.TransmitMode, enabled: bool, highLoss: bool, lowestRate: bool, samples: nat)
  {
    predicate Duplicates() { enabled && (highLoss || mode.Retrans? || lowestRate) }
  }

  /** A batch that is duplicated goes out without redundancy, but for the samples. */
  predicate Follows(isDuplicate: bool, d: Decision, k: nat, n: nat)
  {
    isDuplicate == d.Duplicates() && (isDuplicate && k > 0 ==> n == k + d.samples)
  }

  /**
   What was sent for one batch, by radio and by the cellular link; data is what was encoded, and
   decision what both followed from.
  */
  datatype Transmission = Transmission(frames: seq<Frame>, cellular: seq<Frame>, data: seq<Vec>, decision: Decision)

  function Payloads(frames: seq<Frame>): (r: seq<seq<gf>>)
    ensures |r| == |frames| && forall j | 0 <= j < |frames| :: r[j] == frames[j].payload
  {
    seq(|frames|, j requires 0 <= j < |frames| => frames[j].payload)
  }

  function Lengths(payloads: seq<Payload>): (r: seq<nat>)
    ensures |r| == |payloads| && forall i | 0 <= i < |payloads| :: r[i] == |payloads[i]|
  {
    seq(|payloads|, i requires 0 <= i < |payloads| => |payloads[i]|)
  }

  /** The frames are the n coded packets of the batch, each with a header that tells how to decode it. */
  ghost predicate Carries(tr: Transmission, b: Batch)
  {
    var n := |tr.frames|;
    && n > 0 && |b.payloads| == b.k && Pads(tr.data, b.payloads)
    && 1 <= |tr.frames[0].payload| <= PKT_SIZE
    && IsCodeword(Payloads(tr.frames), tr.data, b.k, n, |tr.frames[0].payload|)
    && b.k <= n && tr.cellular == (if tr.decision.Duplicates() then tr.frames[..b.k] else [])
    && (tr.decision.Duplicates() ==> n == b.k + tr.decision.samples)
    && (tr.decision.mode.Retrans? <==> b.resend)
    && forall j | 0 <= j < n :: var f := tr.frames[j];
        && f.rawSeq == tr.frames[0].rawSeq + j && f.batchId == tr.frames[0].batchId
        && f.startSeq == b.startSeq && f.ind == j && f.k == b.k && f.n == n && f.lens == Lengths(b.payloads)
        && f.rate in Packets.RATES
  }

  ghost predicate AllCarried(sent: seq<Transmission>, batches: seq<Batch>, enabled: bool)
  {
    && |sent| == |batches|
    && forall i | 0 <= i < |sent| :: Carries(sent[i], batches[i]) && sent[i].decision.enabled == enabled
  }

  lemma OneMoreCarried(sent: seq<Transmission>, batches: seq<Batch>, enabled: bool, tr: Transmission, b: Batch)
    requires AllCarried(sent, batches, enabled) && Carries(tr, b) && tr.decision.enabled == enabled
    ensures AllCarried(sent + [tr], batches + [b], enabled)
  {
    hide Carries;
  }

  /** What the rate maker is told from outside: a look-up by place, and the choices of a baseline algorithm. */
  predicate Choices(lookup: ScoutRate.Lookup, baseline: seq<nat>)
  {
    lookup.Valid() && |baseline| == Redundancy.MAX_N && forall r | r in baseline :: r in Packets.RATES
  }

  // ---------------------------------------------------------------------------------
  // The thread
  // ---------------------------------------------------------------------------------

  class TxSendAth {
    const buf: TxDataBuf
    const encoder: CodeInfo
    const rateMaker: ScoutRate.ScoutRateAdaptation
    const headerSize: nat
    const coherenceTime: nat
    var state: Pc
    var handleRetransmission: bool
    var codingPktCnt: nat
    var kLocal: nat
    var nLocal: nat
    var rateArr: seq<nat>
    var isDuplicate: bool
    var seqNum: nat
    var len: nat
    var index: nat
    var rawSeq: nat
    var batchId: nat
    ghost var tx: Thread
    ghost var batches: seq<Batch>
    ghost var sent: seq<Transmission>
    ghost var decision: Decision

    ghost function Model(): System
      reads this, buf
    {
      System(buf.model, tx, batches)
    }

    /** The fields agree with the model; a held packet is still described by the last dequeue. */
    ghost predicate Coupled()
      reads this`state, this`handleRetransmission, this`codingPktCnt, this`kLocal, this`tx
      reads this`seqNum, this`len, this`index
    {
      Aligned() && (codingPktCnt > 0 ==> kLocal == tx.k)
    }

    /** The same without the size of the batch, while that is being decided. */
    ghost predicate Aligned()
      reads this`state, this`handleRetransmission, this`codingPktCnt, this`tx
      reads this`seqNum, this`len, this`index
    {
      && state == tx.pc && handleRetransmission == tx.retrans && codingPktCnt == tx.cnt
      && (handleRetransmission ==>
            seqNum == tx.heldSeq && len == tx.heldLen && seqNum >= 1 && index == (seqNum - 1) % BUF_SIZE)
    }

    /** Nothing else shares memory with the encoder. */
    ghost predicate Apart()
      reads encoder.original, encoder.coded
    {
      && this !in encoder.Writable() && rateMaker !in encoder.Writable()
      && buf !in encoder.Writable() && buf.slots !in encoder.Writable()
      && encoder.original !in encoder.Writable() && encoder.coded !in encoder.Writable()
      && encoder in encoder.Writable()
    }

    predicate EncoderKind()
    {
      encoder.codecType.EncoderSide? && encoder.maxBatch == MAX_BATCH_SIZE && encoder.pktSize == PKT_SIZE
    }

    /** The encoder holds the open batch, and there is a rate for each packet it will send. */
    ghost predicate Coding()
      reads this`tx, this`rateArr, this`isDuplicate, this`decision
      reads encoder, encoder.lens, encoder.original, encoder.coded, encoder.original[..]
    {
      && Apart() && EncoderKind() && encoder.Valid() && encoder.Filled(tx.enc.payloads)
      && encoder.k == tx.enc.k && encoder.startSeq == tx.enc.startSeq
      && (tx.cnt > 0 ==> |rateArr| == encoder.n && forall r | r in rateArr :: r in Packets.RATES)
      && (tx.cnt > 0 ==> Follows(isDuplicate, decision, encoder.k, encoder.n)
                         && decision.enabled == rateMaker.enableDuplicate
                         && (decision.mode.Retrans? <==> tx.enc.resend))
      && (tx.enc.resend ==> tx.pc.HandleEncoding?)
    }

    ghost predicate Deciding()
      reads rateMaker
    {
      rateMaker.Valid() && rateMaker.lossBound >= 0.0
    }

    /** Everything sent so far carries the batches of the model. */
    ghost predicate OnAir()
      reads this`sent, this`batches
    {
      AllCarried(sent, batches, rateMaker.enableDuplicate)
    }

    ghost predicate Valid()
      reads this, buf, buf.slots, rateMaker
      reads encoder, encoder.lens, encoder.original, encoder.coded, encoder.original[..]
    {
      Ready() && SysInv(Model(), buf.cfg)
    }

    /** All but the invariant of the model. */
    ghost predicate Ready()
      reads this, buf, buf.slots, rateMaker
      reads encoder, encoder.lens, encoder.original, encoder.coded, encoder.original[..]
    {
      buf.Valid() && Coupled() && Coding() && Deciding() && OnAir() && Apart()
    }

    /** The thread starts on a buffer that other threads may share. */
    constructor (buf: TxDataBuf, version: ScoutRate.Version, enableDuplicate: bool, headerSize: nat,
                 coherenceTime: nat)
      requires buf.Valid() && buf.model == START
      ensures Valid() && this.buf == buf && Model() == FIRST_SYSTEM && rateMaker.version == version
      ensures rateMaker.enableDuplicate == enableDuplicate
      ensures this.headerSize == headerSize && this.coherenceTime == coherenceTime
      ensures fresh(encoder.Repr()) && fresh(rateMaker)
    {
      hide SysInv, SendWindow.Inv, Holds, ScoutRate.LossMap;
      hide CodeInfo.Writable, CodeInfo.Repr, CodeInfo.Valid, CodeInfo.Filled;
      this.buf, this.headerSize, this.coherenceTime := buf, headerSize, coherenceTime;
      var maker := new ScoutRate.ScoutRateAdaptation(version, enableDuplicate);
      rateMaker := maker;
      var info := new CodeInfo(EncoderSide, MAX_BATCH_SIZE, PKT_SIZE);
      encoder := info;
      state, handleRetransmission, codingPktCnt, kLocal, nLocal := HandleNewPkt, false, 0, 0, 0;
      rateArr, isDuplicate := [], false;
      seqNum, len, index, rawSeq, batchId := 0, 0, 0, 1, 1;
      tx, batches, sent := FIRST_THREAD, [], [];
      decision := Decision(ScoutRate.Data, enableDuplicate, false, false, 0);
      FirstInv(buf.cfg);
      new;
      NotWritten(encoder);
    }

    lemma NotWritten(c: CodeInfo)
      ensures this !in c.Writable()
    {}

    /** The rate maker goes on, and with a batch that is not empty. */
    ghost predicate Decided(mode: ScoutRate.TransmitMode, len: nat, k: nat)
      requires rateMaker.rate > 0
      reads rateMaker
    {
      && rateMaker.Accepts(mode, coherenceTime, headerSize + len, EXTRA_WAIT, k)
      && !rateMaker.TooShort(mode, coherenceTime, headerSize + len, EXTRA_WAIT)
    }

    lemma RatePositive()
      requires Deciding()
      ensures rateMaker.rate > 0
    {
      Packets.RatesAscend();
    }

    /** The decision is what the rate maker saw. */
    ghost predicate Recorded(mode: ScoutRate.TransmitMode)
      reads this`decision, rateMaker
    {
      rateMaker.Valid() && Packets.RATES != [] &&
      decision == Decision(mode, rateMaker.enableDuplicate, rateMaker.HighLoss(),
                           rateMaker.rate == Packets.RATES[0], |rateMaker.sampleRates|)
    }

    /** The rate maker decides on the size of the batch, its redundancy and its rates. */
    method AskRateMaker(mode: ScoutRate.TransmitMode, coherence: nat, size: nat, extra: nat, k: nat,
                        lookup: ScoutRate.Lookup, baseline: seq<nat>)
      returns (ok: bool)
      requires Deciding() && Choices(lookup, baseline)
      modifies this`kLocal, this`nLocal, this`rateArr, this`isDuplicate, this`decision, rateMaker
      ensures Deciding() && rateMaker.rate > 0
      ensures ok <==> rateMaker.Accepts(mode, coherence, size, extra, k)
      ensures ok ==> kLocal <= MAX_BATCH_SIZE && kLocal <= nLocal <= MAX_CODED && (!mode.Data? ==> kLocal == k)
      ensures ok ==> (kLocal == 0 <==> rateMaker.TooShort(mode, coherence, size, extra))
      ensures ok ==> |rateArr| == nLocal && forall r | r in rateArr :: r in Packets.RATES
      ensures ok ==> (isDuplicate <==>
                rateMaker.enableDuplicate
                && (rateMaker.HighLoss() || mode.Retrans? || rateMaker.rate == Packets.RATES[0]))
      ensures ok ==> |rateMaker.sampleRates| == if ScoutRate.Sampling(rateMaker.version) then 1 else 0
      ensures ok && isDuplicate && kLocal > 0 ==> nLocal == kLocal + |rateMaker.sampleRates|
      ensures ok ==> Recorded(mode) && Follows(isDuplicate, decision, kLocal, nLocal)
      ensures ok ==> decision.mode == mode && decision.enabled == rateMaker.enableDuplicate
    {
      hide TxSendAth.Recorded, Decision.Duplicates, ScoutRate.ScoutRateAdaptation.FecRule;
      hide ScoutRate.ScoutRateAdaptation.RatesChosen, ScoutRate.ScoutRateAdaptation.Best;
      hide ScoutRate.ScoutRateAdaptation.Combines;
      hide ScoutRate.LossMap, ScoutRate.AllLost, ScoutRate.Sampling, ScoutRate.Baseline, Packets.RATES;
      hide Redundancy.Ceil, Redundancy.PktDuration, Redundancy.Moderate;
      hide ScoutRate.ScoutRateAdaptation.Accepts, ScoutRate.ScoutRateAdaptation.TooShort;
      hide ScoutRate.ScoutRateAdaptation.HighLoss;
      RatePositive();
      ok, kLocal, nLocal, rateArr, isDuplicate :=
        rateMaker.MakeDecision(mode, coherence, size, extra, k, lookup, baseline);
      NeverTooShort(mode, coherence, size, extra);
      if ok {
        Record(mode);
      }
    }

    ghost method Record(mode: ScoutRate.TransmitMode)
      requires Deciding() && Packets.RATES != []
      modifies this`decision
      ensures Recorded(mode) && decision.mode == mode && decision.enabled == rateMaker.enableDuplicate
      ensures rateMaker.Valid() && decision.samples == |rateMaker.sampleRates|
      ensures decision.Duplicates() <==>
                rateMaker.enableDuplicate
                && (rateMaker.HighLoss() || mode.Retrans? || rateMaker.rate == Packets.RATES[0])
    {
      hide ScoutRate.LossMap, Packets.RATES;
      decision := Decision(mode, rateMaker.enableDuplicate, rateMaker.HighLoss(),
                           rateMaker.rate == Packets.RATES[0], |rateMaker.sampleRates|);
    }

    /** The decision, and the encoder told of it. */
    method Decide(mode: ScoutRate.TransmitMode, coherence: nat, size: nat, extra: nat, k: nat, start: nat,
                  lookup: ScoutRate.Lookup, baseline: seq<nat>)
      returns (ok: bool)
      requires Deciding() && Choices(lookup, baseline)
      requires encoder.Valid() && encoder.Filled(tx.enc.payloads) && encoder.maxBatch == MAX_BATCH_SIZE
      modifies this`kLocal, this`nLocal, this`rateArr, this`isDuplicate, this`decision, rateMaker
      modifies encoder`k, encoder`n, encoder`startSeq
      ensures Deciding() && rateMaker.rate > 0
      ensures ok <==> rateMaker.Accepts(mode, coherence, size, extra, k)
      ensures ok ==> kLocal <= MAX_BATCH_SIZE && (!mode.Data? ==> kLocal == k)
      ensures ok ==> (kLocal == 0 <==> rateMaker.TooShort(mode, coherence, size, extra))
      ensures ok ==> encoder.Valid() && encoder.Filled(tx.enc.payloads) && encoder.k == kLocal
      ensures ok ==> encoder.startSeq == if start > 0 then start else old(encoder.startSeq)
      ensures ok ==> |rateArr| == encoder.n && forall r | r in rateArr :: r in Packets.RATES
      ensures ok ==> (isDuplicate <==>
                rateMaker.enableDuplicate
                && (rateMaker.HighLoss() || mode.Retrans? || rateMaker.rate == Packets.RATES[0]))
      ensures ok ==> |rateMaker.sampleRates| == if ScoutRate.Sampling(rateMaker.version) then 1 else 0
      ensures ok && isDuplicate && kLocal > 0 ==> encoder.n == kLocal + |rateMaker.sampleRates|
      ensures ok ==> Recorded(mode) && Follows(isDuplicate, decision, encoder.k, encoder.n)
      ensures ok ==> decision.mode == mode && decision.enabled == rateMaker.enableDuplicate
    {
      hide TxSendAth.Recorded, ScoutRate.ScoutRateAdaptation.HighLoss, Follows;
      hide CodeInfo.Filled, CodeInfo.Buffers, CodeInfo.Writable, Packets.RATES, Choices, TxSendAth.Deciding;
      hide ScoutRate.ScoutRateAdaptation.Accepts, ScoutRate.ScoutRateAdaptation.TooShort;
      ok := AskRateMaker(mode, coherence, size, extra, k, lookup, baseline);
      if ok {
        encoder.SetCodeInfo(kLocal, nLocal, start);
      }
    }

    /** Only new data can be refused a batch for want of time. */
    lemma NeverTooShort(mode: ScoutRate.TransmitMode, coherence: nat, size: nat, extra: nat)
      requires Deciding() && rateMaker.rate > 0
      ensures !mode.Data? ==> !rateMaker.TooShort(mode, coherence, size, extra)
    {}

    /** The encoder as the first push of a batch finds it, or a later one. */
    ghost predicate Opened()
      reads this, encoder, encoder.lens, encoder.original, encoder.coded, encoder.original[..]
    {
      && Apart() && EncoderKind() && encoder.Valid() && encoder.Filled(tx.enc.payloads)
      && encoder.k == kLocal && encoder.startSeq == (if codingPktCnt == 0 then seqNum else tx.enc.startSeq)
      && |rateArr| == encoder.n && (forall r | r in rateArr :: r in Packets.RATES)
      && Follows(isDuplicate, decision, encoder.k, encoder.n) && decision.enabled == rateMaker.enableDuplicate
    }

    /** The push itself; src is what stands in the ring slot. */
    method PushPacket(src: Payload, pc: Pc, ghost next: Thread) returns (ok: bool)
      requires Opened() && codingPktCnt == |tx.enc.payloads| && 0 < len <= |src| && len <= PKT_SIZE
      requires next.enc.payloads == tx.enc.payloads + [src[..len]]
      requires next.enc.k == next.k == kLocal && next.enc.startSeq == encoder.startSeq
      requires next.pc == pc && next.cnt == codingPktCnt + 1 && !next.retrans && !handleRetransmission
      requires (decision.mode.Retrans? <==> next.enc.resend) && (next.enc.resend ==> pc.HandleEncoding?)
      modifies this`codingPktCnt, this`state, this`tx, encoder.Writable()
      ensures ok <==> old(codingPktCnt) < kLocal
      ensures ok ==> Coupled() && Coding() && tx == next
    {
      hide CodeInfo.Filled, CodeInfo.Buffers, CodeInfo.Writable;
      ok := encoder.PushOriginal(len, src, tx.enc.payloads);
      if !ok {
        return;
      }
      tx := next;
      codingPktCnt := codingPktCnt + 1;
      state := pc;
    }

    /** The packet just dequeued joins the batch; the first one opens it. */
    method AddToBatch(src: Payload, lookup: ScoutRate.Lookup, baseline: seq<nat>) returns (ok: bool)
      requires Coupled() && Coding() && Deciding() && state.HandleNewPkt? && !handleRetransmission
      requires Choices(lookup, baseline)
      requires 0 < len <= |src| && len <= PKT_SIZE && seqNum >= 1
      requires codingPktCnt == |tx.enc.payloads|
      requires codingPktCnt > 0 ==> codingPktCnt < kLocal == tx.enc.k <= MAX_BATCH_SIZE
      modifies this`kLocal, this`nLocal, this`rateArr, this`isDuplicate, this`decision, this`codingPktCnt
      modifies this`state, this`tx
      modifies rateMaker, encoder.Writable()
      ensures Deciding() && rateMaker.rate > 0
      ensures ok <==> (old(codingPktCnt) == 0 ==> Decided(ScoutRate.Data, len, 0))
      ensures ok ==> Coupled() && Coding() && 1 <= kLocal <= MAX_BATCH_SIZE
      ensures ok ==> tx == AddNew(old(tx), seqNum, src[..len], kLocal)
      ensures ok ==> if old(codingPktCnt) == 0 then Recorded(ScoutRate.Data) else decision == old(decision)
    {
      hide Choices, TxSendAth.Deciding;
      hide TxSendAth.Recorded, ScoutRate.ScoutRateAdaptation.HighLoss, Follows;
      hide CodeInfo.Filled, CodeInfo.Buffers, CodeInfo.Writable, ScoutRate.LossMap;
      hide Redundancy.PktDuration, Packets.RATES;
      hide ScoutRate.ScoutRateAdaptation.Accepts, ScoutRate.ScoutRateAdaptation.TooShort;
      RatePositive();
      if codingPktCnt == 0 {
        ok := Decide(ScoutRate.Data, coherenceTime, headerSize + len, EXTRA_WAIT, 0, seqNum, lookup, baseline);
        if !ok {
          return;
        }
      }
      var pc := if codingPktCnt + 1 == kLocal then HandleEncoding else HandleNewPkt;
      ok := PushPacket(src, pc, AddNew(tx, seqNum, src[..len], kLocal));
    }

    /** The packet just dequeued waits until the current batch is finished. */
    method HoldBack()
      requires Coupled() && !handleRetransmission && seqNum >= 1 && index == (seqNum - 1) % BUF_SIZE
      modifies this`handleRetransmission, this`state, this`tx
      ensures Coupled()
      ensures tx == old(tx).(retrans := true, heldSeq := seqNum, heldLen := len, pc := HandlePartialBatch)
    {
      handleRetransmission := true;
      state := HandlePartialBatch;
      tx := tx.(retrans := true, heldSeq := seqNum, heldLen := len, pc := HandlePartialBatch);
    }

    /** No packet came in time. */
    method EndBatch()
      requires Ready() && state.HandleNewPkt?
      modifies this`state, this`tx
      ensures Ready() && tx == old(tx).(pc := HandlePartialBatch)
    {
      hide SendWindow.Inv, Holds, TxSendAth.OnAir, ScoutRate.LossMap;
      hide CodeInfo.Filled, CodeInfo.Valid, CodeInfo.Writable;
      state := HandlePartialBatch;
      tx := tx.(pc := HandlePartialBatch);
    }

    /** What the dequeue of slot i described in the local variables; src is what stands in its ring slot. */
    ghost predicate Fetched(status: Status, src: Payload, slot: Slot, i: nat)
      reads this
    {
      && status == slot.status && seqNum == slot.seqNum && len == slot.len <= |slot.pkt|
      && (slot.Pending() ==> 0 < len <= |src| && len <= PKT_SIZE && src[..len] == slot.pkt[..len]
                             && seqNum == i + 1 && index == i % BUF_SIZE)
    }

    /** A new packet, a retransmission, or a slot to skip. */
    method TakePacket(status: Status, src: Payload, lookup: ScoutRate.Lookup, baseline: seq<nat>, ghost slot: Slot,
                      ghost i: nat)
      returns (ok: bool, ghost k: nat)
      requires Ready() && Choices(lookup, baseline) && Fetched(status, src, slot, i)
      requires state.HandleNewPkt? && !handleRetransmission && codingPktCnt == |tx.enc.payloads|
      requires codingPktCnt > 0 ==> codingPktCnt < kLocal == tx.enc.k <= MAX_BATCH_SIZE
      modifies this`kLocal, this`nLocal, this`rateArr, this`isDuplicate, this`decision, this`codingPktCnt
      modifies this`state, this`tx
      modifies this`handleRetransmission
      modifies rateMaker, encoder.Writable()
      ensures rateMaker.rate > 0 && buf.model == old(buf.model)
      ensures ok <==> (slot.status.OccupiedNew? && old(codingPktCnt) == 0 ==> Decided(ScoutRate.Data, slot.len, 0))
      ensures k <= MAX_BATCH_SIZE && (ok && slot.status.OccupiedNew? && old(codingPktCnt) == 0 ==> k >= 1)
      ensures ok ==> Ready() && slot.len <= |slot.pkt| && tx == TakeSlot(old(tx), slot, i, k)
      ensures ok ==> if slot.status.OccupiedNew? && old(codingPktCnt) == 0 then Recorded(ScoutRate.Data)
                     else decision == old(decision)
    {
      hide TxSendAth.Recorded, ScoutRate.ScoutRateAdaptation.HighLoss, Follows;
      hide SendWindow.Inv, Holds, TxSendAth.OnAir;
      hide RingBytes, AddNew, CodeInfo.Filled, CodeInfo.Valid, CodeInfo.Writable, ScoutRate.LossMap;
      hide ScoutRate.ScoutRateAdaptation.Accepts, ScoutRate.ScoutRateAdaptation.TooShort;
      RatePositive();
      ok, k := true, 1;
      if status.OccupiedNew? {
        ok := AddToBatch(src, lookup, baseline);
        k := if ok then kLocal else 1;
      } else if status.OccupiedRetrans? {
        HoldBack();
      }
    }

    /** The wait for a packet, and the dequeue that ends it. */
    method FetchPacket(timedOut: bool, now: int) returns (ok: bool, isTimeout: bool, status: Status)
      requires Ready() && !handleRetransmission
      requires !timedOut ==> buf.model.curr < buf.model.Tail() == |buf.model.handed| && !buf.IsEmpty()
      modifies this`seqNum, this`len, this`index, buf`curr, buf`model, buf.slots
      ensures isTimeout == timedOut && rateMaker.rate > 0 && index < buf.slots.Length
      ensures ok <==> timedOut || AssertsHold(old(buf.model.log[buf.model.curr]))
      ensures ok ==> Ready()
      ensures timedOut ==> buf.model == old(buf.model)
      ensures ok && !timedOut ==> buf.model == Dequeue(old(buf.model), now)
      ensures ok && !timedOut ==>
                Fetched(status, buf.slots[index].pkt, old(buf.model.log[buf.model.curr]), old(buf.model.curr))
    {
      hide SendWindow.Inv, Holds, RingBytes, Dequeue, ScoutRate.LossMap, TxSendAth.Coding;
      hide TxSendAth.OnAir, CodeInfo.Writable;
      RatePositive();
      ghost var i := buf.model.curr;
      if !timedOut {
        CurrentSlot(buf.model, buf.cfg);
        DequeueKeeps(buf.model, now);
      }
      var retries;
      ok, isTimeout, seqNum, len, status, retries, index := buf.DequeuePkt(timedOut, now);
    }

    method IterateNewPkt(timedOut: bool, now: int, lookup: ScoutRate.Lookup, baseline: seq<nat>)
      returns (ok: bool, ghost k: nat)
      requires Ready() && Choices(lookup, baseline)
      requires state.HandleNewPkt? && !handleRetransmission && codingPktCnt == |tx.enc.payloads|
      requires codingPktCnt > 0 ==> codingPktCnt < kLocal == tx.enc.k <= MAX_BATCH_SIZE
      requires !timedOut ==> buf.model.curr < buf.model.Tail() == |buf.model.handed| && !buf.IsEmpty()
      modifies this`seqNum, this`len, this`index, this`handleRetransmission
      modifies this`kLocal, this`nLocal, this`rateArr, this`isDuplicate, this`decision, this`codingPktCnt
      modifies this`state, this`tx
      modifies buf`curr, buf`model, buf.slots
      modifies rateMaker, encoder.Writable()
      ensures rateMaker.rate > 0 && k <= MAX_BATCH_SIZE
      ensures timedOut ==> ok && buf.model == old(buf.model) && tx == old(tx).(pc := HandlePartialBatch)
      ensures !timedOut ==> var slot := old(buf.model.log[buf.model.curr]);
                (ok <==> AssertsHold(slot) && (slot.status.OccupiedNew? && old(codingPktCnt) == 0 ==>
                                                 Decided(ScoutRate.Data, slot.len, 0)))
                && (ok && slot.status.OccupiedNew? && old(codingPktCnt) == 0 ==> k >= 1)
      ensures ok ==> Ready()
      ensures ok && !timedOut ==> buf.model == Dequeue(old(buf.model), now)
      ensures ok && !timedOut ==> var slot := old(buf.model.log[buf.model.curr]);
                slot.len <= |slot.pkt| && tx == TakeSlot(old(tx), slot, old(buf.model.curr), k)
      ensures ok ==>
                if !timedOut && old(buf.model.log[buf.model.curr]).status.OccupiedNew? && old(codingPktCnt) == 0
                then Recorded(ScoutRate.Data) else decision == old(decision)
    {
      hide TxSendAth.Recorded, TxSendAth.Ready, TxSendAth.Fetched, TxSendAth.Decided, CodeInfo.Writable;
      hide Dequeue, TakeSlot, Choices;
      k := 1;
      ghost var slot, i := BlankSlot(buf.cfg), buf.model.curr;
      if !timedOut {
        slot := buf.model.log[i];
      }
      var isTimeout, status;
      ok, isTimeout, status := FetchPacket(timedOut, now);
      if !ok {
        return;
      }
      if isTimeout {
        EndBatch();
      } else {
        ok, k := TakePacket(status, buf.slots[index].pkt, lookup, baseline, slot, i);
      }
    }

    /** A batch closed early is short enough for the rule that decides on it. */
    lemma AcceptsLate(k: nat)
      requires Deciding() && 0 < k < MAX_BATCH_SIZE
      ensures rateMaker.rate > 0 && rateMaker.Accepts(ScoutRate.TimeOut, 0, 0, 0, k)
    {
      RatePositive();
    }

    /** The batch is closed with the packets it has. */
    method CloseBatch(lookup: ScoutRate.Lookup, baseline: seq<nat>)
      requires Coupled() && Coding() && Deciding() && Choices(lookup, baseline) && 0 < codingPktCnt < MAX_BATCH_SIZE
      requires state.HandlePartialBatch?
      modifies this`kLocal, this`nLocal, this`rateArr, this`isDuplicate, this`decision, this`state, this`tx, rateMaker
      modifies encoder`k, encoder`n, encoder`startSeq
      ensures Coupled() && Coding() && Deciding() && tx == StepPartialBatch(old(tx)) && Recorded(ScoutRate.TimeOut)
    {
      hide TxSendAth.Recorded, ScoutRate.ScoutRateAdaptation.HighLoss, Follows;
      hide CodeInfo.Filled, CodeInfo.Buffers, CodeInfo.Writable, ScoutRate.LossMap;
      hide ScoutRate.ScoutRateAdaptation.Accepts, ScoutRate.ScoutRateAdaptation.TooShort;
      var ok := Decide(ScoutRate.TimeOut, 0, 0, 0, codingPktCnt, 0, lookup, baseline);
      AcceptsLate(codingPktCnt);
      ReadyToEncode();
    }

    method ReadyToEncode()
      requires Aligned() && Opened() && 0 < codingPktCnt == kLocal && !decision.mode.Retrans? && !tx.enc.resend
      modifies this`state, this`tx
      ensures Coupled() && Coding() && tx == StepPartialBatch(old(tx)) && decision == old(decision)
    {
      hide CodeInfo.Filled, CodeInfo.Valid, CodeInfo.Writable;
      state := HandleEncoding;
      tx := StepPartialBatch(tx);
    }

    /** There is no open batch. */
    method LeaveEmptyBatch()
      requires Coupled() && Coding() && codingPktCnt == 0 && state.HandlePartialBatch?
      modifies this`state, this`tx
      ensures Coupled() && Coding() && tx == StepPartialBatch(old(tx))
    {
      hide CodeInfo.Filled, CodeInfo.Valid, CodeInfo.Writable;
      state := if handleRetransmission then HandleRetransmission else HandleNewPkt;
      tx := StepPartialBatch(tx);
    }

    /** Whatever is there is sent, with its own redundancy; otherwise the held retransmission is next. */
    method IteratePartialBatch(lookup: ScoutRate.Lookup, baseline: seq<nat>)
      requires Ready() && Choices(lookup, baseline)
      requires state.HandlePartialBatch? && codingPktCnt < MAX_BATCH_SIZE
      modifies this`kLocal, this`nLocal, this`rateArr, this`isDuplicate, this`decision, this`state, this`tx, rateMaker
      modifies encoder`k, encoder`n, encoder`startSeq
      ensures Ready() && rateMaker.rate > 0 && tx == StepPartialBatch(old(tx))
      ensures if old(codingPktCnt) > 0 then Recorded(ScoutRate.TimeOut) else decision == old(decision)
    {
      hide TxSendAth.Recorded, TxSendAth.OnAir, TxSendAth.Coding, TxSendAth.Deciding, TxSendAth.Coupled;
      hide CodeInfo.Writable;
      hide SendWindow.Inv, Holds, StepPartialBatch, Choices;
      RatePositive();
      CountIs();
      if codingPktCnt > 0 {
        CloseBatch(lookup, baseline);
        RatePositive();
      } else {
        LeaveEmptyBatch();
      }
    }

    lemma CountIs()
      requires Coupled()
      ensures codingPktCnt == tx.cnt
    {}

    /** The held packet alone; src is what stands in its ring slot now. */
    method PushHeld(src: Payload, lookup: ScoutRate.Lookup, baseline: seq<nat>, ghost next: Thread) returns (ok: bool)
      requires Coupled() && Coding() && Deciding() && Choices(lookup, baseline)
      requires handleRetransmission && 0 < len <= |src| && len <= PKT_SIZE && tx.cnt == 0 && tx.enc.payloads == []
      requires next.enc.payloads == [src[..len]] && next.enc.k == next.k == 1 && next.enc.startSeq == seqNum
      requires next.pc.HandleEncoding? && next.cnt == 1 && !next.retrans && next.enc.resend
      modifies this`kLocal, this`nLocal, this`rateArr, this`isDuplicate, this`decision, this`codingPktCnt
      modifies this`state, this`tx
      modifies this`handleRetransmission
      modifies rateMaker, encoder.Writable()
      ensures Deciding() && rateMaker.rate > 0 && (ok <==> Decided(ScoutRate.Retrans, len, 1))
      ensures ok ==> Coupled() && Coding() && tx == next && Recorded(ScoutRate.Retrans)
    {
      hide Choices, TxSendAth.Deciding;
      hide TxSendAth.Recorded, ScoutRate.ScoutRateAdaptation.HighLoss, Follows;
      hide CodeInfo.Filled, CodeInfo.Buffers, CodeInfo.Writable, ScoutRate.LossMap;
      hide ScoutRate.ScoutRateAdaptation.Accepts, ScoutRate.ScoutRateAdaptation.TooShort;
      handleRetransmission := false;
      ok := Decide(ScoutRate.Retrans, coherenceTime, headerSize + len, EXTRA_WAIT, 1, seqNum, lookup, baseline);
      if !ok {
        return;
      }
      assert [] + [src[..len]] == [src[..len]];
      ok := PushPacket(src, HandleEncoding, next);
      assert ok;
    }

    /** The held packet is the only one of its batch, copied from its ring slot now. */
    method IterateRetransmission(lookup: ScoutRate.Lookup, baseline: seq<nat>, ghost next: Thread) returns (ok: bool)
      requires tx.heldSeq >= 1 && CanCopy(buf.model.log, tx.heldSeq - 1, tx.heldLen)
      requires next == StepRetransmission(tx, buf.model.log)
      requires Ready() && Choices(lookup, baseline)
      requires handleRetransmission && 0 < len <= PKT_SIZE && tx.cnt == 0 && tx.enc.payloads == []
      modifies this`kLocal, this`nLocal, this`rateArr, this`isDuplicate, this`decision, this`codingPktCnt
      modifies this`state, this`tx
      modifies this`handleRetransmission
      modifies rateMaker, encoder.Writable()
      ensures rateMaker.rate > 0 && (ok <==> Decided(ScoutRate.Retrans, len, 1))
      ensures ok ==> Ready() && tx == next && Recorded(ScoutRate.Retrans)
    {
      hide TxSendAth.Recorded, TxSendAth.OnAir, TxSendAth.Coding, TxSendAth.Deciding, TxSendAth.Decided;
      hide CodeInfo.Writable;
      hide SendWindow.Inv, RingBytes, Holds, Choices;
      RatePositive();
      PositionShowsLatest(buf.slots[..], buf.model.log, buf.cfg, seqNum - 1);
      assert buf.slots[..][index] == buf.slots[index];
      ok := PushHeld(buf.slots[index].pkt, lookup, baseline, next);
    }

    /** Every coded packet goes out with its header, and on a duplicated batch the first k by cellular as well. */
    method SendCodedBatch() returns (frames: seq<Frame>, cellular: seq<Frame>)
      requires encoder.Valid() && encoder.codecType.EncoderSide? && encoder.curInd == 0 && |rateArr| == encoder.n
      modifies this`rawSeq, this`batchId, encoder`curInd
      ensures encoder.Valid() && batchId == old(batchId) + 1 && rawSeq == old(rawSeq) + encoder.n
      ensures |frames| == encoder.n && cellular == if isDuplicate then frames[..encoder.k] else []
      ensures forall j | 0 <= j < |frames| ::
                frames[j] == Frame(old(rawSeq) + j, old(batchId), encoder.startSeq, j, encoder.k, encoder.n,
                                   encoder.lens[..encoder.k], rateArr[j], encoder.coded[j][..encoder.sz])
    {
      frames, cellular := [], [];
      for j := 0 to encoder.n
        invariant encoder.Valid() && encoder.curInd == j && rawSeq == old(rawSeq) + j && batchId == old(batchId)
        invariant |frames| == j
        invariant forall i | 0 <= i < j ::
                frames[i] == Frame(old(rawSeq) + i, batchId, encoder.startSeq, i, encoder.k, encoder.n,
                                   encoder.lens[..encoder.k], rateArr[i], encoder.coded[i][..encoder.sz])
        invariant cellular == if isDuplicate then frames[..if j < encoder.k then j else encoder.k] else []
      {
        var ok, dst, len := encoder.PopPkt();
        assert ok;
        var frame := Frame(rawSeq, batchId, encoder.startSeq, j, encoder.k, encoder.n, encoder.lens[..encoder.k],
                           rateArr[j], dst[..len]);
        if isDuplicate && j < encoder.k {
          cellular := cellular + [frame];
        }
        frames := frames + [frame];
        rawSeq := rawSeq + 1;
      }
      batchId := batchId + 1;
    }

    lemma BatchSizes()
      requires Coding() && tx.enc.k == |tx.enc.payloads| >= 1 && |tx.enc.payloads[0]| > 0
      ensures 1 <= encoder.sz <= PKT_SIZE && encoder.k <= encoder.lens.Length
      ensures encoder.lens[..encoder.k] == Lengths(tx.enc.payloads)
    {}

    /** The open batch is coded, and all of the codeword sent. */
    method EncodeAndSend(t: Tables) returns (ghost tr: Transmission)
      requires t.Valid() && Coding() && codingPktCnt == tx.cnt == tx.enc.k == |tx.enc.payloads|
      requires 1 <= tx.enc.k && |tx.enc.payloads[0]| > 0
      modifies this`rawSeq, this`batchId, encoder.Writable()
      ensures encoder.Usable() && EncoderKind() && Carries(tr, tx.enc)
      ensures tr.decision == decision && decision.enabled == rateMaker.enableDuplicate
    {
      hide Separate, CodeInfo.Writable, Pads, IsData, CodedPacket, Encoder, Carries, IsCodeword, CodeInfo.Filled;
      ghost var b := tx.enc;
      BatchSizes();
      ghost var lens := encoder.lens[..];
      assert lens[..b.k] == Lengths(b.payloads);
      ghost var data := encoder.EncodeFilled(t, b.payloads);
      assert encoder.lens[..][..b.k] == encoder.lens[..b.k] == Lengths(b.payloads);
      var frames, cellular := SendCodedBatch();
      tr := Transmission(frames, cellular, data, decision);
      forall j | 0 <= j < encoder.n
        ensures frames[j].payload == CodedPacket(Encoder(b.k, encoder.n)[j], data, encoder.sz)
        ensures frames[j].rate in Packets.RATES && frames[j].lens == Lengths(b.payloads)
      {
        assert rateArr[j] in rateArr;
      }
      CarriesIs(tr, b, encoder.n, encoder.sz);
    }

    /** An empty encoder for the next batch. */
    method NextBatch()
      requires Coupled() && Apart() && EncoderKind() && encoder.Usable()
      modifies this`codingPktCnt, this`state, this`tx, encoder.Writable()
      ensures Coupled() && Coding()
      ensures tx == old(tx).(cnt := 0, enc := NO_BATCH,
                             pc := if old(tx).retrans then HandleRetransmission else HandleNewPkt)
    {
      hide CodeInfo.Buffers, CodeInfo.Filled, CodeInfo.Writable;
      encoder.ClearInfo();
      codingPktCnt := 0;
      state := if handleRetransmission then HandleRetransmission else HandleNewPkt;
      tx := tx.(cnt := 0, enc := NO_BATCH, pc := state);
    }

    /** The batch joins what was sent. */
    method SendOpenBatch(t: Tables)
      requires t.Valid() && Apart() && Coding() && OnAir()
      requires codingPktCnt == tx.cnt == tx.enc.k == |tx.enc.payloads|
      requires 1 <= tx.enc.k && |tx.enc.payloads[0]| > 0
      modifies this`rawSeq, this`batchId, this`batches, this`sent, encoder.Writable()
      ensures encoder.Usable() && EncoderKind() && OnAir() && batches == old(batches) + [tx.enc]
    {
      hide AllCarried, Carries, CodeInfo.Usable, CodeInfo.Writable, TxSendAth.Coding, TxSendAth.EncoderKind;
      ghost var tr := EncodeAndSend(t);
      OneMoreCarried(sent, batches, rateMaker.enableDuplicate, tr, tx.enc);
      sent := sent + [tr];
      batches := batches + [tx.enc];
    }

    /** The batch is coded and sent, and the encoder cleared. */
    method IterateEncoding(t: Tables)
      requires t.Valid() && Ready() && codingPktCnt == tx.enc.k == |tx.enc.payloads|
      requires 1 <= tx.enc.k && |tx.enc.payloads[0]| > 0
      modifies this`rawSeq, this`batchId, this`codingPktCnt, this`state, this`tx, this`batches, this`sent
      modifies encoder.Writable()
      ensures Ready() && rateMaker.rate > 0 && batches == old(batches) + [old(tx).enc]
      ensures tx == old(tx).(cnt := 0, enc := NO_BATCH,
                             pc := if old(tx).retrans then HandleRetransmission else HandleNewPkt)
    {
      hide CodeInfo.Usable, CodeInfo.Writable, SendWindow.Inv, Holds, TxSendAth.OnAir;
      hide TxSendAth.Coding, TxSendAth.Deciding, TxSendAth.EncoderKind, TxSendAth.Coupled;
      RatePositive();
      CountIs();
      SendOpenBatch(t);
      NextBatch();
    }

    /** Where the program goes on: its own assertions hold, and the first push of a batch is accepted. */
    twostate predicate GoesOn(timedOut: bool)
      requires old(state).HandleNewPkt? && !timedOut ==> old(buf.model.curr) < |old(buf.model.log)|
      requires rateMaker.rate > 0
      reads this, buf, rateMaker
    {
      match old(state)
      case HandleNewPkt =>
        timedOut || var slot := old(buf.model.log[buf.model.curr]);
          AssertsHold(slot)
          && (slot.status.OccupiedNew? && old(codingPktCnt) == 0 ==> Decided(ScoutRate.Data, slot.len, 0))
      case HandleRetransmission => Decided(ScoutRate.Retrans, old(len), 1)
      case _ => true
    }

    /** Every batch is decided on when it is opened, and once more when it is closed early. */
    twostate predicate DecidesWhen(timedOut: bool)
      requires old(state).HandleNewPkt? && !timedOut ==> old(buf.model.curr) < |old(buf.model.log)|
      reads this, buf, rateMaker
    {
      match old(state)
      case HandleNewPkt =>
        if !timedOut && old(buf.model.log[buf.model.curr]).status.OccupiedNew? && old(codingPktCnt) == 0
        then Recorded(ScoutRate.Data) else decision == old(decision)
      case HandlePartialBatch =>
        if old(codingPktCnt) > 0 then Recorded(ScoutRate.TimeOut) else decision == old(decision)
      case HandleRetransmission => Recorded(ScoutRate.Retrans)
      case HandleEncoding => decision == old(decision)
    }

    /**
     One iteration of the loop is one step of the state machine. k is what was decided for a batch
     of new packets; ok tells whether the program goes on.
    */
    method Iterate(t: Tables, timedOut: bool, now: int, lookup: ScoutRate.Lookup, baseline: seq<nat>)
      returns (ok: bool, ghost k: nat)
      requires t.Valid() && Valid() && Choices(lookup, baseline)
      requires state.HandleNewPkt? && !timedOut ==> !buf.IsEmpty()
      modifies this, buf`curr, buf`model, buf.slots
      modifies rateMaker, encoder.Writable()
      ensures old(state).HandleNewPkt? && !timedOut ==> old(buf.model.curr) < |old(buf.model.log)|
      ensures rateMaker.rate > 0 && (ok <==> GoesOn(timedOut))
      ensures ok ==> Valid() && CanStep(old(Model()), timedOut, k)
      ensures ok ==> Model() == SendStep(old(Model()), timedOut, now, k) && DecidesWhen(timedOut)
    {
      hide SendWindow.Inv, Holds, SysInv, Choices, TakeSlot, StepPartialBatch, StepRetransmission, Dequeue;
      hide TxSendAth.Coding, TxSendAth.OnAir, TxSendAth.Decided, TxSendAth.Deciding, TxSendAth.Recorded;
      hide CanStep, CanCopy, AssertsHold, CodeInfo.Writable, CodeInfo.Valid, ScoutRate.LossMap;
      ThreadFacts(Model(), buf.cfg);
      ok, k := true, 1;
      ghost var s := Model();
      match state {
        case HandleNewPkt =>
          ok, k := IterateNewPkt(timedOut, now, lookup, baseline);
        case HandlePartialBatch =>
          IteratePartialBatch(lookup, baseline);
        case HandleRetransmission =>
          ok := IterateRetransmission(lookup, baseline, StepRetransmission(tx, buf.model.log));
        case HandleEncoding =>
          IterateEncoding(t);
      }
      if ok {
        CanStepFrom(s, timedOut, k);
        SendStepInv(s, timedOut, now, k, buf.cfg);
      }
    }
  }

  /** What the invariant says about the thread's own variables. */
  lemma ThreadFacts(s: System, cfg: Config)
    requires SysInv(s, cfg)
    ensures Pointers(s.win) && s.tx.cnt == |s.tx.enc.payloads|
    ensures s.tx.pc.HandleNewPkt? ==>
              !s.tx.retrans && (s.tx.cnt > 0 ==> s.tx.cnt < s.tx.k == s.tx.enc.k <= MAX_BATCH_SIZE)
    ensures s.tx.pc.HandlePartialBatch? ==> s.tx.cnt < MAX_BATCH_SIZE
    ensures s.tx.pc.HandleRetransmission? ==>
              s.tx.retrans && s.tx.cnt == 0 && s.tx.heldSeq >= 1 && 0 < s.tx.heldLen <= PKT_SIZE
              && CanCopy(s.win.log, s.tx.heldSeq - 1, s.tx.heldLen)
    ensures s.tx.pc.HandleEncoding? ==> s.tx.cnt > 0 && s.tx.cnt == s.tx.enc.k && |s.tx.enc.payloads[0]| > 0
  {
    hide SendWindow.Inv, PushOk, CanCopy, Accounted, TakenOut, Complete, SentWithContent;
    WindowLengths(s.win, cfg);
    if s.tx.pc.HandleRetransmission? {
      HeldTaken(s);
      TakenHasContent(s, s.tx.heldSeq, cfg);
      CopiedOk(s.win, s.tx.heldSeq - 1, cfg);
    } else if s.tx.pc.HandleEncoding? {
      FirstPushed(s, cfg);
    }
  }

  lemma CanStepFrom(s: System, timedOut: bool, k: nat)
    requires Pointers(s.win) && k <= MAX_BATCH_SIZE
    requires s.tx.pc.HandleNewPkt? && !timedOut ==>
               s.win.curr < s.win.Tail() && s.win.log[s.win.curr].len <= |s.win.log[s.win.curr].pkt|
               && AssertsHold(s.win.log[s.win.curr])
               && (s.win.log[s.win.curr].status.OccupiedNew? && s.tx.cnt == 0 ==> k >= 1)
    requires s.tx.pc.HandleRetransmission? ==>
               s.tx.heldSeq >= 1 && CanCopy(s.win.log, s.tx.heldSeq - 1, s.tx.heldLen)
    ensures CanStep(s, timedOut, k)
  {
    hide AssertsHold, CanCopy;
  }

  lemma HeldTaken(s: System)
    requires s.tx.retrans
    ensures s.tx.heldSeq in TakenOut(s.batches, s.tx)
  {}

  lemma PushedTaken(s: System)
    requires s.tx.enc.seqs != []
    ensures s.tx.enc.seqs[0] in TakenOut(s.batches, s.tx)
  {
    assert s.tx.enc.seqs[0] in multiset(s.tx.enc.seqs);
  }

  lemma FirstPushed(s: System, cfg: Config)
    requires SysInv(s, cfg) && s.tx.pc.HandleEncoding?
    ensures |s.tx.enc.payloads| > 0 && |s.tx.enc.payloads[0]| > 0
  {
    hide SendWindow.Inv, RingBytes, Accounted, TakenOut, Complete, SentWithContent;
    assert PushOk(s.tx.enc.seqs[0], s.tx.enc.source[0], s.tx.enc.payloads[0], s.win.accepted);
    PushedTaken(s);
    TakenHasContent(s, s.tx.enc.seqs[0], cfg);
  }

  /** A packet taken out of the window was not empty. */
  lemma TakenHasContent(s: System, seqNum: nat, cfg: Config)
    requires SysInv(s, cfg) && seqNum in TakenOut(s.batches, s.tx)
    ensures 1 <= seqNum <= |s.win.accepted| && 0 < |s.win.accepted[seqNum - 1]| <= PKT_SIZE
  {
    hide RingBytes, Complete, ThreadOk, TakenOut;
    var taken := TakenOut(s.batches, s.tx);
    assert taken[seqNum - 1 + 1] == s.win.handed[seqNum - 1];
    assert SlotOk(s.win, seqNum - 1, cfg);
  }

  lemma CarriesIs(tr: Transmission, b: Batch, n: nat, sz: nat)
    requires n > 0 && |tr.frames| == n && |b.payloads| == b.k && Pads(tr.data, b.payloads) && 1 <= sz <= PKT_SIZE
    requires ValidSizes(b.k, n) && IsData(tr.data, b.k, sz)
    requires tr.cellular == (if tr.decision.Duplicates() then tr.frames[..b.k] else [])
    requires Follows(tr.decision.Duplicates(), tr.decision, b.k, n) && (tr.decision.mode.Retrans? <==> b.resend)
    requires forall j | 0 <= j < n :: var f := tr.frames[j];
      && f.rawSeq == tr.frames[0].rawSeq + j && f.batchId == tr.frames[0].batchId
      && f.startSeq == b.startSeq && f.ind == j && f.k == b.k && f.n == n && f.lens == Lengths(b.payloads)
      && f.rate in Packets.RATES && f.payload == CodedPacket(Encoder(b.k, n)[j], tr.data, sz)
    ensures Carries(tr, b)
  {
    hide Pads, IsData, CodedPacket, Encoder, Packets.RATES, Lengths;
  }

  lemma DequeueKeeps(s: State, now: int)
    requires s.curr < s.Tail() == |s.handed|
    ensures Dequeue(s, now).accepted == s.accepted
  {}
}
