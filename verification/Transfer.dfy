/**
 One batch end to end: packets of mixed lengths are pushed and encoded on one side, any k
 different coded packets are pushed in any order on the other side, decoded and popped.
*/
module Transfer {
  import opened Gf
  import opened Linear
  import opened Shuffle
  import opened RsCode
  import opened Fec
  import opened Codec
  import opened BatchCodec

  // ---------------------------------------------------------------------------------
  // The sending side
  // ---------------------------------------------------------------------------------

  method FillBatch(enc: CodeInfo, packets: seq<seq<gf>>)
    requires enc.Valid() && enc.Filled([]) && enc.k == |packets|
    requires forall i | 0 <= i < |packets| :: 1 <= |packets[i]| <= enc.pktSize
    modifies enc.Writable()
    ensures enc.Valid() && enc.Filled(packets) && enc.k == old(enc.k) && enc.n == old(enc.n)
  {
    hide Separate, CodeInfo.Filled;
    for i := 0 to |packets|
      invariant enc.Valid() && enc.Filled(packets[..i]) && enc.k == old(enc.k) && enc.n == old(enc.n)
    {
      var ok := enc.PushOriginal(|packets[i]|, packets[i], packets[..i]);
      assert packets[i][..|packets[i]|] == packets[i];
      assert packets[..i + 1] == packets[..i] + [packets[i]];
    }
    assert packets[..|packets|] == packets;
  }

  lemma FilledSizes(enc: CodeInfo, packets: seq<seq<gf>>)
    requires enc.Filled(packets)
    ensures |packets| <= enc.lens.Length
    ensures forall i | 0 <= i < |packets| :: enc.lens[i] == enc.lens[..][i] == |packets[i]| <= enc.sz
  {}

  /** What goes on the air: the coded buffers, cut to the common size. */
  method PopAll(enc: CodeInfo) returns (sent: seq<seq<gf>>)
    requires enc.Valid() && enc.codecType.EncoderSide? && enc.curInd == 0
    modifies enc`curInd
    ensures enc.Valid() && |sent| == enc.n && forall i | 0 <= i < enc.n :: sent[i] == enc.coded[i][..enc.sz]
  {
    sent := [];
    for i := 0 to enc.n
      invariant enc.Valid() && enc.curInd == i && |sent| == i
      invariant forall x | 0 <= x < i :: sent[x] == enc.coded[x][..enc.sz]
    {
      var ok, dst, len := enc.PopPkt();
      sent := sent + [dst[..len]];
    }
  }

  /** The n packets of the codeword of some data. */
  ghost predicate IsCodeword(sent: seq<seq<gf>>, data: seq<Vec>, k: nat, n: nat, sz: nat)
  {
    && ValidSizes(k, n) && IsData(data, k, sz) && |sent| == n
    && forall i | 0 <= i < n :: sent[i] == CodedPacket(Encoder(k, n)[i], data, sz)
  }

  /** Push, encode and pop on the sending side. data is what was really encoded, padding included. */
  method SendSide(t: Tables, enc: CodeInfo, packets: seq<seq<gf>>, n: nat, seqNum: nat)
    returns (sent: seq<seq<gf>>, ghost data: seq<Vec>)
    requires t.Valid() && enc.Valid() && enc.codecType.EncoderSide? && enc.Filled([])
    requires ValidSizes(|packets|, n) && |packets| <= enc.maxBatch
    requires forall i | 0 <= i < |packets| :: 1 <= |packets[i]| <= enc.pktSize
    modifies enc.Writable()
    ensures enc.Valid() && 1 <= enc.sz <= enc.pktSize && Pads(data, packets)
    ensures IsCodeword(sent, data, |packets|, n, enc.sz)
    ensures forall i | 0 <= i < |packets| :: enc.lens[i] == |packets[i]|
  {
    hide CodedPacket, Encoder, Separate, Sized, Contents, IsData, Pads, CodeInfo.Filled, CodeInfo.Writable;
    enc.AllWritable();
    enc.SetCodeInfo(|packets|, n, seqNum);
    FillBatch(enc, packets);
    FilledSizes(enc, packets);
    ghost var lens := enc.lens[..];
    data := enc.EncodeFilled(t, packets);
    forall i | 0 <= i < |packets| ensures enc.lens[i] == |packets[i]| {
      assert enc.lens[i] == enc.lens[..][i] == lens[i];
    }
    assert |packets[0]| <= enc.sz;
    sent := PopAll(enc);
  }

  // ---------------------------------------------------------------------------------
  // The receiving side
  // ---------------------------------------------------------------------------------

  lemma CodedDiffer(dec: CodeInfo, i: nat)
    requires dec.Valid() && i < dec.coded.Length
    ensures forall x | 0 <= x < dec.coded.Length && x != i :: dec.coded[x] != dec.coded[i]
    ensures forall x | 0 <= x < dec.coded.Length :: dec.coded[x] in dec.coded[..]
  {
    dec.BuffersApart();
    forall x | 0 <= x < dec.coded.Length ensures dec.coded[x] in dec.coded[..] {
      assert dec.coded[..][x] == dec.coded[x];
    }
  }

  method Deliver(dec: CodeInfo, received: seq<seq<gf>>, chosen: seq<nat>, sz: nat)
    requires dec.Valid() && dec.codecType.DecoderSide? && dec.curInd == 0 && dec.sz == 0
    requires dec.k == |chosen| == |received| && 1 <= sz <= dec.pktSize
    requires forall i | 0 <= i < |chosen| :: chosen[i] < dec.n && |received[i]| == sz
    modifies dec`curInd, dec`sz, dec.lens, dec.inds, dec.original[..], dec.coded[..]
    ensures dec.Valid() && dec.curInd == dec.k && (dec.k > 0 ==> dec.sz == sz)
    ensures forall i | 0 <= i < |chosen| :: dec.inds[i] == chosen[i] && dec.coded[i][..sz] == received[i]
  {
    hide Separate;
    for i := 0 to |chosen|
      invariant dec.Valid() && dec.curInd == i && dec.sz == if i == 0 then 0 else sz
      invariant forall x | 0 <= x < i :: dec.inds[x] == chosen[x] && dec.coded[x][..sz] == received[x]
    {
      CodedDiffer(dec, i);
      ghost var before := dec.inds[..];
      var ok := dec.PushPkt(sz, received[i], chosen[i]);
      assert forall x | 0 <= x < i :: dec.inds[..][x] == before[x];
      assert dec.coded[i][..][..sz] == dec.coded[i][..sz] == received[i][..sz];
    }
  }

  method Drain(dec: CodeInfo) returns (out: seq<seq<gf>>)
    requires dec.Valid() && dec.codecType.DecoderSide? && dec.curInd == 0
    requires forall i | 0 <= i < dec.k :: dec.lens[i] <= dec.pktSize
    modifies dec`curInd
    ensures |out| == dec.k && forall i | 0 <= i < dec.k :: out[i] == dec.coded[i][..dec.lens[i]]
  {
    out := [];
    for i := 0 to dec.k
      invariant dec.Valid() && dec.curInd == i && |out| == i
      invariant forall x | 0 <= x < i :: out[x] == dec.coded[x][..dec.lens[x]]
    {
      var ok, dst, len := dec.PopPkt();
      out := out + [dst[..len]];
    }
  }

  /** Packets of the codeword of some data, with their indices. */
  ghost predicate FromCodeword(received: seq<seq<gf>>, chosen: seq<nat>, data: seq<Vec>, k: nat, n: nat, sz: nat)
  {
    && ValidSizes(k, n) && IsData(data, k, sz) && |received| == |chosen| == k
    && forall i | 0 <= i < k :: chosen[i] < n && received[i] == CodedPacket(Encoder(k, n)[chosen[i]], data, sz)
  }

  /** Push the packets received and take over the lengths from the header. */
  method Accept(dec: CodeInfo, received: seq<seq<gf>>, chosen: seq<nat>, k: nat, n: nat, sz: nat, lens: seq<nat>,
                ghost data: seq<Vec>)
    requires dec.Valid() && dec.codecType.DecoderSide? && dec.curInd == 0 && dec.sz == 0
    requires FromCodeword(received, chosen, data, k, n, sz) && k <= dec.maxBatch && k <= |lens|
    requires 1 <= sz <= dec.pktSize
    modifies dec, dec.lens, dec.inds, dec.original[..], dec.coded[..]
    ensures dec.Valid() && dec.k == k && dec.n == n && dec.sz == sz
    ensures dec.inds[..k] == chosen && dec.lens[..k] == lens[..k]
    ensures Sized(dec.coded[..k], sz)
    ensures Arrived(Code(k, n, Encoder(k, n)), chosen, Contents(dec.coded[..k], sz), data, sz)
  {
    hide CodedPacket, Encoder, Separate;
    dec.SetCodeInfo(k, n, 0);
    Deliver(dec, received, chosen, sz);
    dec.CopyLens(lens);
    assert forall i | 0 <= i < k :: Contents(dec.coded[..k], sz)[i] == dec.coded[i][..sz];
  }

  /** Decode in place and pop every packet with its own length. */
  method DecodeAndDrain(t: Tables, dec: CodeInfo, ghost chosen: seq<nat>, ghost lengths: seq<nat>, ghost data: seq<Vec>)
    returns (out: seq<seq<gf>>)
    requires t.Valid() && dec.Valid() && dec.codecType.DecoderSide? && ValidSizes(dec.k, dec.n)
    requires |chosen| == dec.k && DistinctIndices(chosen) && forall i | 0 <= i < dec.k :: chosen[i] < dec.n
    requires dec.inds[..dec.k] == chosen && dec.lens[..dec.k] == lengths
    requires IsData(data, dec.k, dec.sz) && forall i | 0 <= i < dec.k :: lengths[i] <= dec.sz
    requires Sized(dec.coded[..dec.k], dec.sz)
    requires Arrived(Code(dec.k, dec.n, Encoder(dec.k, dec.n)), chosen,
                     Contents(dec.coded[..dec.k], dec.sz), data, dec.sz)
    modifies dec, dec.inds, dec.coded, dec.coded[..]
    ensures |out| == |data| && forall i | 0 <= i < |data| :: out[i] == data[i][..lengths[i]]
  {
    hide CodedPacket, Encoder, DistinctIndices, Arrived;
    assert Decodable(Code(dec.k, dec.n, Encoder(dec.k, dec.n)), chosen);
    dec.DecodeBatch(t);
    assert Contents(dec.coded[..dec.k], dec.sz) == data;
    forall i | 0 <= i < dec.k ensures dec.lens[i] == lengths[i] && dec.coded[i][..dec.sz] == data[i] {
      assert dec.lens[..dec.k][i] == dec.lens[i];
      assert Contents(dec.coded[..dec.k], dec.sz)[i] == dec.coded[i][..dec.sz];
    }
    out := Drain(dec);
    forall i | 0 <= i < dec.k ensures out[i] == data[i][..lengths[i]] {
      assert dec.coded[i][..dec.sz][..lengths[i]] == dec.coded[i][..lengths[i]];
    }
  }

  /** Any k different packets of a codeword, in any order, give back the packets that were padded into its data. */
  method ReceiveSide(t: Tables, dec: CodeInfo, received: seq<seq<gf>>, chosen: seq<nat>, k: nat, n: nat, sz: nat,
                     lens: seq<nat>, ghost data: seq<Vec>, ghost packets: seq<seq<gf>>)
    returns (out: seq<seq<gf>>)
    requires t.Valid() && dec.Valid() && dec.codecType.DecoderSide? && dec.curInd == 0 && dec.sz == 0
    requires FromCodeword(received, chosen, data, k, n, sz) && DistinctIndices(chosen)
    requires k <= dec.maxBatch && 1 <= sz <= dec.pktSize
    requires Pads(data, packets) && k <= |lens| && forall i | 0 <= i < k :: lens[i] == |packets[i]|
    modifies dec, dec.lens, dec.inds, dec.original[..], dec.coded, dec.coded[..]
    ensures out == packets
  {
    hide CodedPacket, Encoder, DistinctIndices, Separate, Sized, Contents, Arrived;
    Accept(dec, received, chosen, k, n, sz, lens, data);
    out := DecodeAndDrain(t, dec, chosen, lens[..k], data);
    assert forall i | 0 <= i < k :: out[i] == packets[i];
  }

  // ---------------------------------------------------------------------------------
  // Both together
  // ---------------------------------------------------------------------------------

  /** The end-to-end law: every original packet comes back in order, byte for byte up to its own length. */
  method TransferBatch(t: Tables, enc: CodeInfo, dec: CodeInfo, packets: seq<seq<gf>>, n: nat, seqNum: nat,
                       chosen: seq<nat>)
    returns (out: seq<seq<gf>>)
    requires t.Valid() && enc.Valid() && enc.Filled([]) && dec.Valid() && dec.codecType.DecoderSide?
    requires enc.pktSize <= dec.pktSize && dec.curInd == dec.sz == 0
    requires ValidSizes(|packets|, n) && |packets| <= enc.maxBatch && |packets| <= dec.maxBatch
    requires forall i | 0 <= i < |packets| :: 1 <= |packets[i]| <= enc.pktSize
    requires enc.Repr() !! dec.Repr()
    requires |chosen| == |packets| && DistinctIndices(chosen) && forall i | 0 <= i < |chosen| :: chosen[i] < n
    modifies enc.Repr(), dec.Repr()
    ensures out == packets
  {
    hide DistinctIndices, Separate, IsCodeword, Pads, FromCodeword;
    InRepr(enc);
    InRepr(dec);
    var sent;
    ghost var data;
    sent, data := SendSide(t, enc, packets, n, seqNum);
    CodewordLength(sent, data, |packets|, n, enc.sz);
    var received := seq(|chosen|, i requires 0 <= i < |chosen| => sent[chosen[i]]);
    Chosen(sent, received, chosen, data, |packets|, n, enc.sz);
    out := ReceiveSide(t, dec, received, chosen, |packets|, n, enc.sz, enc.lens[..], data, packets);
  }

  lemma CodewordLength(sent: seq<seq<gf>>, data: seq<Vec>, k: nat, n: nat, sz: nat)
    requires IsCodeword(sent, data, k, n, sz)
    ensures |sent| == n
  {}

  lemma Chosen(sent: seq<seq<gf>>, received: seq<seq<gf>>, chosen: seq<nat>, data: seq<Vec>, k: nat, n: nat, sz: nat)
    requires IsCodeword(sent, data, k, n, sz) && |received| == |chosen| == k
    requires forall i | 0 <= i < k :: chosen[i] < |sent| && received[i] == sent[chosen[i]]
    ensures FromCodeword(received, chosen, data, k, n, sz)
  {
    hide CodedPacket, Encoder;
  }

  lemma InRepr(c: CodeInfo)
    ensures c in c.Repr() && c.inds in c.Repr() && c.lens in c.Repr() && c.original in c.Repr() && c.coded in c.Repr()
    ensures forall i | 0 <= i < c.original.Length :: c.original[i] in c.Repr() && c.original[..][i] in c.Repr()
    ensures forall i | 0 <= i < c.coded.Length :: c.coded[i] in c.Repr() && c.coded[..][i] in c.Repr()
  {
    forall i | 0 <= i < c.original.Length ensures c.original[i] in c.original[..] {
      assert c.original[..][i] == c.original[i];
    }
    forall i | 0 <= i < c.coded.Length ensures c.coded[i] in c.coded[..] { assert c.coded[..][i] == c.coded[i]; }
  }
}
