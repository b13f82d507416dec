/**
 From the window to the other end of the air: whatever k of the n coded packets of a batch
 arrive, decoding gives back the batch, and for new packets that is what the window accepted.
*/
module Delivery {
  import opened Gf
  import opened Shuffle
  import opened BatchCodec
  import opened Transfer
  import opened SendWindow
  import Ring
  import opened Sender
  import opened SendThread
  import opened Runs
  import opened Resend
  import opened Endpoint

  function Indices(frames: seq<Frame>): (r: seq<nat>)
    ensures |r| == |frames| && forall j | 0 <= j < |frames| :: r[j] == frames[j].ind
  {
    seq(|frames|, j requires 0 <= j < |frames| => frames[j].ind)
  }

  /** k different frames of one transmission, in any order. */
  ghost predicate Enough(received: seq<Frame>, tr: Transmission, k: nat)
  {
    |received| == k && DistinctIndices(Indices(received)) && forall i | 0 <= i < k :: received[i] in tr.frames
  }

  /** The cellular link alone delivers a batch that was duplicated, and is not used for any other. */
  lemma CellularIsEnough(tr: Transmission, b: Batch)
    requires Carries(tr, b)
    ensures var d := tr.decision;
      if d.enabled && (d.highLoss || d.mode.Retrans? || d.lowestRate) then
        tr.cellular == tr.frames[..b.k] && |tr.frames| == b.k + d.samples && Enough(tr.cellular, tr, b.k)
      else tr.cellular == []
  {
    hide IsCodeword, Pads;
    forall j | 0 <= j < |tr.frames| ensures tr.frames[j].ind == j {}
  }

  /** While duplication is enabled, every packet that is resent goes by cellular too, whole. */
  lemma ResentByCellular(client: Client, i: nat)
    requires client.Valid() && i < |client.sender.sent| == |client.sender.batches|
    ensures var tr, b := client.sender.sent[i], client.sender.batches[i];
      && (client.sender.rateMaker.enableDuplicate && b.resend ==>
            tr.cellular == tr.frames[..b.k] && Enough(tr.cellular, tr, b.k))
      && (!client.sender.rateMaker.enableDuplicate ==> tr.cellular == [])
  {
    hide SysInv, SendWindow.Inv, Ring.Holds, Enough, IsRun, CodeInfo.Valid, IsCodeword, Pads;
    hide TxSendAth.Coding, TxSendAth.Coupled, TxSendAth.Deciding, TxSendAth.Apart;
    CellularIsEnough(client.sender.sent[i], client.sender.batches[i]);
  }

  /** Each frame names its place in the codeword. */
  lemma FramesFit(received: seq<Frame>, tr: Transmission, b: Batch)
    requires Carries(tr, b) && Enough(received, tr, b.k)
    ensures FromCodeword(Payloads(received), Indices(received), tr.data, b.k, |tr.frames|, |tr.frames[0].payload|)
    ensures b.k >= 1 && received[0].k == b.k && received[0].n == |tr.frames|
    ensures received[0].lens == Lengths(b.payloads) && |received[0].payload| == |tr.frames[0].payload|
  {
    hide Codec.CodedPacket, RsCode.Encoder, Pads, DistinctIndices;
    forall i | 0 <= i < b.k
      ensures exists j :: 0 <= j < |tr.frames| && received[i] == tr.frames[j] == tr.frames[received[i].ind]
                          && received[i].ind == j
    {
      var j :| 0 <= j < |tr.frames| && received[i] == tr.frames[j];
      assert tr.frames[j].ind == j;
    }
  }

  /** What a receiver does with k frames: everything it needs stands in their headers. */
  method DecodeFrames(t: Tables, dec: CodeInfo, received: seq<Frame>, ghost tr: Transmission, ghost b: Batch)
    returns (out: seq<seq<gf>>)
    requires Carries(tr, b) && Enough(received, tr, b.k)
    requires t.Valid() && dec.Valid() && dec.codecType.DecoderSide? && dec.curInd == 0 && dec.sz == 0
    requires b.k <= dec.maxBatch && PKT_SIZE <= dec.pktSize
    modifies dec, dec.lens, dec.inds, dec.original[..], dec.coded, dec.coded[..]
    ensures out == b.payloads
  {
    hide DistinctIndices, FromCodeword, Pads, IsCodeword, CodeInfo.Valid;
    FramesFit(received, tr, b);
    var f := received[0];
    out := ReceiveSide(t, dec, Payloads(received), Indices(received), f.k, f.n, |f.payload|, f.lens, tr.data,
                       b.payloads);
  }

  /** Batch i of a client, from any k of its frames: for new packets the very bytes that were accepted. */
  method DeliverBatch(t: Tables, client: Client, dec: CodeInfo, received: seq<Frame>, ghost i: nat)
    returns (out: seq<seq<gf>>)
    requires client.Valid() && i < |client.sender.sent| == |client.sender.batches|
    requires Enough(received, client.sender.sent[i], client.sender.batches[i].k)
    requires t.Valid() && dec.Valid() && dec.codecType.DecoderSide? && dec.curInd == 0 && dec.sz == 0
    requires MAX_BATCH_SIZE <= dec.maxBatch && PKT_SIZE <= dec.pktSize
    modifies dec, dec.lens, dec.inds, dec.original[..], dec.coded, dec.coded[..]
    ensures var b := old(client.sender.batches[i]); var accepted := old(client.buf.model.accepted);
      && out == b.payloads && 1 <= b.startSeq && b.startSeq - 1 + b.k <= |accepted|
      && (!b.resend ==> out == accepted[b.startSeq - 1..b.startSeq - 1 + b.k])
  {
    hide SysInv, SendWindow.Inv, Ring.Holds, Enough, Carries, IsRun, CodeInfo.Valid;
    hide TxSendAth.Coding, TxSendAth.Coupled, TxSendAth.Deciding, TxSendAth.Apart;
    RunLength(client.states, client.events, client.buf.cfg);
    ghost var b := client.sender.batches[i];
    BatchContents(client.states, client.events, client.buf.cfg, b);
    out := DecodeFrames(t, dec, received, client.sender.sent[i], b);
  }
}
