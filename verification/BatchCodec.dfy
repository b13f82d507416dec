/** The CodeInfo class: one batch of packets being filled, coded and drained. */
module BatchCodec {
  import opened Gf
  import opened Linear
  import opened RsCode
  import opened Fec
  import opened Codec

  datatype CodecType = EncoderSide | DecoderSide

  const MAX_CODED: nat := 256

  /** Fresh buffers of one size, all different. */
  method AllocBatch(count: nat, size: nat) returns (batch: array<array<gf>>)
    requires 1 <= size <= 8192 && 1 <= count <= MAX_CODED
    ensures fresh(batch) && batch.Length == count
    ensures forall i | 0 <= i < count :: fresh(batch[i]) && batch[i].Length == size
    ensures Separate(batch[..])
  {
    var first := new gf[size];
    batch := new array<gf>[count](_ => first);
    for i := 1 to count
      invariant forall x | 0 <= x < count :: fresh(batch[x]) && batch[x].Length == size
      invariant batch[0] == first && forall x | i <= x < count :: batch[x] == first
      invariant Separate(batch[..i])
    {
      var buffer := new gf[size];
      batch[i] := buffer;
    }
  }

  method ZeroBatch(batch: array<array<gf>>, size: nat)
    requires forall i | 0 <= i < batch.Length :: batch[i].Length == size
    modifies batch[..]
    ensures forall i | 0 <= i < batch.Length :: batch[i][..] == Zeros(size)
  {
    for i := 0 to batch.Length
      invariant forall x | 0 <= x < i :: batch[x][..] == Zeros(size)
    {
      assert batch[..][i] == batch[i];
      Clear(batch[i], size);
      assert batch[i][..] == batch[i][..size];
    }
  }

  /** memcpy into a packet buffer. */
  method Store(dst: array<gf>, src: seq<gf>, len: nat)
    requires len <= dst.Length && len <= |src|
    modifies dst
    ensures dst[..] == src[..len] + old(dst[len..])
  {
    for i := 0 to len
      invariant dst[..i] == src[..i] && dst[len..] == old(dst[len..])
    {
      dst[i] := src[i];
    }
    assert dst[..] == dst[..len] + dst[len..];
  }

  /** The packets as they are encoded: each padded to one common size. */
  ghost predicate Pads(data: seq<Vec>, payloads: seq<seq<gf>>)
  {
    && |data| == |payloads|
    && forall i | 0 <= i < |data| :: |payloads[i]| <= |data[i]| && data[i][..|payloads[i]|] == payloads[i]
  }

  method ZeroInts(a: array<nat>)
    modifies a
    ensures a[..] == seq(a.Length, _ => 0)
  {
    forall i | 0 <= i < a.Length { a[i] := 0; }
  }

  /** Where entry i was before a rearrangement of the first `count` entries. */
  lemma Origin(before: seq<array<gf>>, after: seq<array<gf>>, count: nat, i: nat) returns (a: nat)
    requires |before| == |after| && count <= |before| && i < |after|
    requires SameElements(after[..count], before[..count]) && after[count..] == before[count..]
    ensures a < |before| && before[a] == after[i] && if i < count then a < count else a == i
  {
    if i < count {
      assert after[..count][i] in multiset(after[..count]);
      assert after[i] in before[..count];
      a :| 0 <= a < count && before[..count][a] == after[i];
    } else {
      assert after[count..][i - count] == before[count..][i - count];
      a := i;
    }
  }

  lemma ApartAfter(first: seq<array<gf>>, before: seq<array<gf>>, after: seq<array<gf>>, count: nat, i: nat, j: nat)
    requires |before| == |after| && count <= |before| && i < j < |first| + |after|
    requires SameElements(after[..count], before[..count]) && after[count..] == before[count..]
    requires Separate(first + before) && Separate(after[..count])
    ensures (first + after)[i] != (first + after)[j]
  {
    hide SameElements;
    var all, now, o := first + before, first + after, |first|;
    if j < o {
      assert all[i] == now[i] && all[j] == now[j];
    } else {
      var b := Origin(before, after, count, j - o);
      assert all[o + b] == now[j];
      if i < o {
        assert all[i] == now[i];
      } else if j - o < count {
        assert after[..count][i - o] == now[i] && after[..count][j - o] == now[j];
      } else {
        var a := Origin(before, after, count, i - o);
        assert all[o + a] == now[i];
      }
    }
  }

  /** Permuting the first buffers keeps them of one size and apart. */
  lemma StillValid(first: seq<array<gf>>, before: seq<array<gf>>, after: seq<array<gf>>, count: nat, size: nat)
    requires |before| == |after| && count <= |before|
    requires SameElements(after[..count], before[..count]) && after[count..] == before[count..]
    requires Separate(first + before) && Separate(after[..count])
    requires forall i | 0 <= i < |before| :: before[i].Length == size
    ensures forall i | 0 <= i < |after| :: after[i].Length == size
    ensures Separate(first + after)
  {
    hide SameElements;
    forall i | 0 <= i < |after| ensures after[i].Length == size {
      var a := Origin(before, after, count, i);
    }
    var now := first + after;
    forall i, j | 0 <= i < j < |now| ensures now[i] != now[j] {
      ApartAfter(first, before, after, count, i, j);
    }
  }

  lemma SeparateJoin(a: seq<array<gf>>, b: seq<array<gf>>)
    requires Separate(a) && Separate(b) && forall i, j | 0 <= i < |a| && 0 <= j < |b| :: a[i] != b[j]
    ensures Separate(a + b)
  {}

  /** The buffers of an encoder, or of a decoder when count is 0. */
  method AllocBatches(count: nat, size: nat) returns (originals: array<array<gf>>, coders: array<array<gf>>)
    requires 1 <= size <= 8192 && count <= MAX_CODED
    ensures fresh(originals) && fresh(coders) && originals != coders
    ensures originals.Length == count && coders.Length == MAX_CODED && Separate(originals[..] + coders[..])
    ensures forall i | 0 <= i < count :: fresh(originals[i]) && originals[i].Length == size
    ensures forall i | 0 <= i < MAX_CODED :: fresh(coders[i]) && coders[i].Length == size
  {
    if count > 0 {
      originals := AllocBatch(count, size);
    } else {
      var noBuffer := new gf[0];
      originals := new array<gf>[0](_ => noBuffer);
    }
    coders := AllocBatch(MAX_CODED, size);
    SeparateJoin(originals[..], coders[..]);
  }

  /** A decoder made for k and n, run on the first k buffers. */
  method RunDecoder(t: Tables, k: nat, n: nat, coded: array<array<gf>>, inds: array<nat>, sz: nat)
    requires t.Valid() && ValidSizes(k, n) && k <= coded.Length && k <= inds.Length
    requires Sized(coded[..k], sz) && Separate(coded[..k])
    modifies inds, coded, coded[..k]
    ensures Sized(coded[..k], sz) && Separate(coded[..k])
    ensures SameElements(coded[..k], old(coded[..k])) && coded[k..] == old(coded[k..])
    ensures Decodable(Code(k, n, Encoder(k, n)), old(inds[..k])) ==>
              Recovers(Code(k, n, Encoder(k, n)), old(inds[..k]),
                       old(Contents(coded[..k], sz)), Contents(coded[..k], sz), sz)
    ensures Sized(old(coded[..k]), sz) && Sized(old(coded[..k]), 0)
    ensures Tails(old(coded[..k]), sz) == old(Tails(coded[..k], sz))
    ensures !Decodable(Code(k, n, Encoder(k, n)), old(inds[..k])) ==>
              Tails(old(coded[..k]), 0) == old(Tails(coded[..k], 0))
  {
    hide Encoder, Decodable, Recovers, Contents, SameElements, Tails, Separate, Sized;
    var code := FecNew(t, k, n);
    assert code.value == Code(k, n, Encoder(k, n));
    var error := FecDecode(t, code.value, coded, inds, sz);
  }

  class CodeInfo {
    const codecType: CodecType
    const maxBatch: nat
    const pktSize: nat
    const inds: array<nat>
    const lens: array<nat>
    const original: array<array<gf>>
    const coded: array<array<gf>>
    var k: nat
    var n: nat
    var sz: nat
    var startSeq: nat
    var curInd: nat

    /** What filling, coding and sending a batch writes. */
    ghost function Writable(): (r: set<object>)
      reads original, coded
    {
      {this, inds, lens} + (set b: array<gf> | b in original[..] :: b as object)
        + (set b: array<gf> | b in coded[..] :: b as object)
    }

    /** A decoder also swaps its buffers. */
    ghost function Repr(): set<object>
      reads original, coded
    {
      Writable() + {original, coded}
    }

    ghost predicate Buffers()
      reads original, coded
    {
      && inds != lens && original != coded
      && inds.Length == coded.Length == MAX_CODED && lens.Length == maxBatch
      && original.Length == (if codecType.EncoderSide? then maxBatch else 0)
      && Separate(original[..] + coded[..])
      && (forall i | 0 <= i < original.Length :: original[i].Length == pktSize)
      && (forall i | 0 <= i < MAX_CODED :: coded[i].Length == pktSize)
    }

    /** The buffers are in order and what was pushed fits them. */
    ghost predicate Usable()
      reads this, original, coded
    {
      Buffers() && sz <= pktSize && curInd <= MAX_CODED
    }

    /** Besides, the sizes of the code are within the buffers. */
    ghost predicate Valid()
      reads this, original, coded
    {
      Usable() && k <= maxBatch && k <= n <= MAX_CODED
    }

    /** What was pushed on the encoder side: packet i with its own length, none longer than sz. */
    ghost predicate Filled(payloads: seq<seq<gf>>)
      reads this, lens, original, coded, original[..]
    {
      && Usable() && codecType.EncoderSide? && curInd == |payloads| <= maxBatch
      && forall i | 0 <= i < |payloads| ::
           lens[i] == |payloads[i]| <= sz && original[i][..|payloads[i]|] == payloads[i]
    }

    constructor (codecType: CodecType, maxBatch: nat, pktSize: nat)
      requires 1 <= maxBatch <= MAX_CODED && 1 <= pktSize <= 8192
      ensures Valid() && (codecType.EncoderSide? ==> Filled([]))
      ensures fresh(Repr()) && fresh(Writable())
      ensures this in Writable() && original !in Writable() && coded !in Writable()
      ensures this.codecType == codecType && this.maxBatch == maxBatch && this.pktSize == pktSize
      ensures k == n == sz == startSeq == curInd == 0
    {
      hide Separate, CodeInfo.Writable;
      this.codecType, this.maxBatch, this.pktSize := codecType, maxBatch, pktSize;
      k, n, sz, startSeq, curInd := 0, 0, 0, 0, 0;
      inds := new nat[MAX_CODED];
      lens := new nat[maxBatch];
      var originals, coders := AllocBatches(if codecType.EncoderSide? then maxBatch else 0, pktSize);
      original, coded := originals, coders;
      new;
      AllWritable();
      OnlyWritable();
    }

    method ClearInfo()
      requires Usable()
      modifies Writable()
      ensures Valid() && (codecType.EncoderSide? ==> Filled([]))
      ensures k == n == sz == startSeq == curInd == 0
      ensures forall i | 0 <= i < original.Length :: original[i][..] == Zeros(pktSize)
      ensures forall i | 0 <= i < coded.Length :: coded[i][..] == Zeros(pktSize)
      ensures inds[..] == seq(MAX_CODED, _ => 0) && lens[..] == seq(maxBatch, _ => 0)
    {
      hide Separate, CodeInfo.Writable;
      AllWritable();
      k, n, sz, startSeq, curInd := 0, 0, 0, 0, 0;
      BuffersApart();
      ZeroBatch(original, pktSize);
      ZeroBatch(coded, pktSize);
      ZeroInts(inds);
      ZeroInts(lens);
    }

    /** Takes any sizes; a start sequence number of 0 leaves the previous one in place. */
    method SetCodeInfo(k: nat, n: nat, seqNum: nat)
      requires Usable()
      modifies this`k, this`n, this`startSeq
      ensures Usable() && this.k == k && this.n == n
      ensures Valid() <==> k <= maxBatch && k <= n <= MAX_CODED
      ensures startSeq == if seqNum > 0 then seqNum else old(startSeq)
      ensures forall payloads: seq<seq<gf>> :: old(Filled(payloads)) ==> Filled(payloads)
    {
      this.k := k;
      this.n := n;
      if seqNum > 0 {
        startSeq := seqNum;
      }
    }

    ghost predicate Accepts(len: nat, ind: nat)
      reads this
    {
      len > 0 && match codecType
        case EncoderSide => ind == 0 && curInd < k
        case DecoderSide => ind < n && curInd < n
    }

    /** The batch that pushes go to. */
    ghost function Target(): array<array<gf>>
    {
      if codecType.EncoderSide? then original else coded
    }

    /** src is what stands at the source address. */
    method PushPkt(len: nat, src: seq<gf>, ind: nat) returns (ok: bool)
      requires Valid() && len <= pktSize && len <= |src|
      modifies this`curInd, this`sz, lens, inds, original[..], coded[..]
      ensures Valid()
      ensures ok <==> old(Accepts(len, ind))
      ensures !ok ==> curInd == old(curInd) && sz == old(sz) && lens[..] == old(lens[..]) && inds[..] == old(inds[..])
      ensures ok ==> curInd == old(curInd) + 1 && sz == if old(sz) < len then len else old(sz)
      ensures ok && codecType.EncoderSide? ==>
          lens[..] == old(lens[..])[old(curInd) := len] && inds[..] == old(inds[..])
      ensures ok && codecType.DecoderSide? ==>
          inds[..] == old(inds[..])[old(curInd) := ind] && lens[..] == old(lens[..])
      ensures ok ==> Target()[old(curInd)][..] == src[..len] + old(Target()[curInd][len..])
      ensures forall b: array<gf> | (b in original[..] || b in coded[..]) && !(ok && b == old(Target()[curInd])) ::
                b[..] == old(b[..])
    {
      if len <= 0 {
        return false;
      }
      var batch;
      if codecType.EncoderSide? {
        if ind != 0 || curInd >= k {
          return false;
        }
        lens[curInd] := len;
        batch := original;
      } else {
        if ind >= n || curInd >= n {
          return false;
        }
        inds[curInd] := ind;
        batch := coded;
      }
      assert batch[..][curInd] == batch[curInd];
      Store(batch[curInd], src, len);
      if sz < len {
        sz := len;
      }
      curInd := curInd + 1;
      ok := true;
    }

    /** A push on the encoder side, where the index is always 0. */
    method PushOriginal(len: nat, src: seq<gf>, ghost payloads: seq<seq<gf>>) returns (ok: bool)
      requires Valid() && Filled(payloads) && len <= pktSize && len <= |src|
      modifies Writable()
      ensures Valid() && k == old(k) && n == old(n) && startSeq == old(startSeq)
      ensures ok <==> len > 0 && |payloads| < k
      ensures Filled(if ok then payloads + [src[..len]] else payloads)
    {
      hide Separate;
      OriginalsApart();
      AllWritable();
      ghost var lens0 := lens[..];
      ok := PushPkt(len, src, 0);
      ghost var all := if ok then payloads + [src[..len]] else payloads;
      forall i | 0 <= i < |all|
        ensures lens[i] == |all[i]| <= sz && original[i][..|all[i]|] == all[i]
      {
        assert lens[..][i] == lens[i];
        assert original[..][i] == original[i];
        if i < |payloads| {
          assert original[i][..] == old(original[i][..]);
        } else {
          assert original[i][..][..len] == original[i][..len];
        }
      }
    }

    lemma OnlyWritable()
      ensures forall o | o in Writable() ::
                || o == this || o == inds || o == lens
                || (exists i | 0 <= i < original.Length :: o == original[i])
                || exists i | 0 <= i < coded.Length :: o == coded[i]
    {
      forall o | o in Writable()
        ensures || o == this || o == inds || o == lens
                || (exists i | 0 <= i < original.Length :: o == original[i])
                || exists i | 0 <= i < coded.Length :: o == coded[i]
      {
        if b: array<gf> :| o == b && b in original[..] {
          var i :| 0 <= i < original.Length && original[..][i] == b;
          assert original[i] == o;
        } else if b: array<gf> :| o == b && b in coded[..] {
          var i :| 0 <= i < coded.Length && coded[..][i] == b;
          assert coded[i] == o;
        }
      }
    }

    lemma AllWritable()
      ensures this in Writable() && inds in Writable() && lens in Writable()
      ensures original !in Writable() && coded !in Writable()
      ensures forall b: array<gf> | b in original[..] :: b in Writable()
      ensures forall b: array<gf> | b in coded[..] :: b in Writable()
      ensures forall i | 0 <= i < original.Length :: original[..][i] in Writable()
      ensures forall i | 0 <= i < coded.Length :: coded[..][i] in Writable()
    {}

    lemma OriginalsApart()
      requires Buffers()
      ensures forall i, j | 0 <= i < original.Length && 0 <= j < original.Length && i != j :: original[i] != original[j]
    {
      var all := original[..] + coded[..];
      forall i, j | 0 <= i < j < original.Length ensures original[i] != original[j] {
        assert all[i] == original[i] && all[j] == original[j];
      }
    }

    /** Hands out a buffer of the coded batch; on the decoder with the length of the original. */
    method PopPkt() returns (ok: bool, dst: array?<gf>, len: nat)
      requires Valid()
      modifies this`curInd
      ensures Valid()
      ensures ok <==> old(curInd) < if codecType.EncoderSide? then n else k
      ensures ok ==> dst == coded[old(curInd)] && curInd == old(curInd) + 1
      ensures ok ==> len == if codecType.EncoderSide? then sz else lens[old(curInd)]
      ensures !ok ==> curInd == old(curInd)
    {
      len := 0;
      if codecType.EncoderSide? {
        if curInd >= n {
          return false, null, 0;
        }
        len := sz;
      } else {
        if curInd >= k {
          return false, null, 0;
        }
        len := lens[curInd];
      }
      dst := coded[curInd];
      curInd := curInd + 1;
      ok := true;
    }

    /** Packet i of the codeword into coded buffer i. */
    method EncodeOne(t: Tables, code: Code, i: nat)
      requires t.Valid() && Valid() && codecType.EncoderSide? && code.Valid() && code.k == k && code.n == n && i < n
      modifies inds, coded[i]
      ensures Sized(original[..k], sz)
      ensures coded[i][..sz] == CodedPacket(Encoder(k, n)[i], Contents(original[..k], sz), sz)
    {
      hide CodedPacket, Encoder, Separate, Sized, Contents;
      OriginalsSized(k);
      BuffersApart();
      inds[i] := i;
      FecEncode(t, code, original, coded[i], i, sz);
    }

    /** Fills the first n coded buffers with the n packets of the codeword. */
    method EncodeBatch(t: Tables)
      requires t.Valid() && Valid() && codecType.EncoderSide? && ValidSizes(k, n)
      modifies this`curInd, inds, coded[..]
      ensures Valid() && curInd == 0
      ensures forall i | 0 <= i < n ::
                coded[i][..sz] == CodedPacket(Encoder(k, n)[i], old(Contents(original[..k], sz)), sz)
      ensures Contents(original[..k], sz) == old(Contents(original[..k], sz))
    {
      hide CodedPacket, Encoder, Separate, Sized, Contents;
      OriginalsSized(k);
      ghost var data := Contents(original[..k], sz);
      var code := FecNew(t, k, n);
      BuffersApart();
      for i := 0 to n
        invariant Contents(original[..k], sz) == data
        invariant forall x | 0 <= x < i :: coded[x][..sz] == CodedPacket(Encoder(k, n)[x], data, sz)
        modifies inds, coded[..]
      {
        assert coded[..][i] == coded[i];
        EncodeOne(t, code.value, i);
      }
      curInd := 0;
    }

    /** What stands in the buffers is what was pushed, padded. */
    lemma FilledData(payloads: seq<seq<gf>>)
      requires Valid() && Filled(payloads) && |payloads| == k
      ensures k <= original.Length && Sized(original[..k], sz)
      ensures IsData(Contents(original[..k], sz), k, sz) && Pads(Contents(original[..k], sz), payloads)
    {
      hide Separate;
      var data := Contents(original[..k], sz);
      ContentsAt(original[..k], sz);
      forall i | 0 <= i < |data| ensures |payloads[i]| <= |data[i]| && data[i][..|payloads[i]|] == payloads[i] {
        assert data[i] == original[i][..sz];
        assert data[i][..|payloads[i]|] == original[i][..|payloads[i]|];
      }
    }

    /** Encodes what was pushed; data is what stood in the buffers, padding included. */
    method EncodeFilled(t: Tables, ghost payloads: seq<seq<gf>>) returns (ghost data: seq<Vec>)
      requires t.Valid() && Valid() && codecType.EncoderSide? && Filled(payloads)
      requires |payloads| == k && ValidSizes(k, n)
      modifies Writable()
      ensures Valid() && k == old(k) && n == old(n) && startSeq == old(startSeq) && sz == old(sz)
      ensures lens[..] == old(lens[..])
      ensures curInd == 0 && IsData(data, k, sz) && Pads(data, payloads)
      ensures forall i | 0 <= i < n :: coded[i][..sz] == CodedPacket(Encoder(k, n)[i], data, sz)
    {
      hide CodedPacket, Encoder, Separate, Sized, Contents, CodeInfo.Filled, CodeInfo.Writable, Pads, IsData;
      FilledData(payloads);
      data := Contents(original[..k], sz);
      AllWritable();
      EncodeBatch(t);
    }

    lemma OriginalsSized(count: nat)
      requires Valid() && count <= original.Length
      ensures Sized(original[..count], sz)
    {}

    /** Buffers of the two batches never alias. */
    lemma BuffersApart()
      requires Buffers()
      ensures forall i, j | 0 <= i < coded.Length && 0 <= j < coded.Length && i != j :: coded[i] != coded[j]
      ensures forall i, j | 0 <= i < coded.Length && 0 <= j < original.Length :: coded[i] != original[j]
    {
      var all := original[..] + coded[..];
      forall i, j | 0 <= i < coded.Length && 0 <= j < original.Length ensures coded[i] != original[j] {
        assert all[original.Length + i] == coded[i] && all[j] == original[j];
      }
      forall i, j | 0 <= i < j < coded.Length ensures coded[i] != coded[j] {
        assert all[original.Length + i] == coded[i] && all[original.Length + j] == coded[j];
      }
    }

    lemma CodedReady(count: nat)
      requires Valid() && count <= coded.Length
      ensures Sized(coded[..count], sz) && Separate(coded[..count])
    {
      BuffersApart();
    }

    /** Decodes the first k pushed packets in place; a failure is only logged and leaves all bytes as they were. */
    method DecodeBatch(t: Tables)
      requires t.Valid() && Valid() && codecType.DecoderSide? && ValidSizes(k, n)
      modifies this`curInd, inds, coded, coded[..]
      ensures Valid() && curInd == 0 && lens[..] == old(lens[..])
      ensures SameElements(coded[..k], old(coded[..k])) && coded[k..] == old(coded[k..])
      ensures Sized(coded[..k], sz)
      ensures Decodable(Code(k, n, Encoder(k, n)), old(inds[..k])) ==>
                Recovers(Code(k, n, Encoder(k, n)), old(inds[..k]),
                         old(Contents(coded[..k], sz)), Contents(coded[..k], sz), sz)
      ensures Sized(old(coded[..k]), sz) && Sized(old(coded[..k]), 0)
      ensures Tails(old(coded[..k]), sz) == old(Tails(coded[..k], sz))
      ensures !Decodable(Code(k, n, Encoder(k, n)), old(inds[..k])) ==>
                Tails(old(coded[..k]), 0) == old(Tails(coded[..k], 0))
    {
      hide Encoder, Decodable, Recovers, Contents, SameElements, Tails, Separate, Sized;
      ghost var before := coded[..];
      CodedReady(k);
      RunDecoder(t, k, n, coded, inds, sz);
      StillValid(original[..], before, coded[..], k, pktSize);
      curInd := 0;
    }

    method CopyLens(from: seq<nat>)
      requires Valid() && 0 < k <= |from|
      modifies lens
      ensures lens[..k] == from[..k] && lens[k..] == old(lens[k..])
    {
      for i := 0 to k
        invariant forall x | 0 <= x < maxBatch :: lens[x] == if x < i then from[x] else old(lens[x])
      {
        lens[i] := from[i];
      }
    }

    /** The sequence numbers of the packets in the batch. */
    method GetSeqArr() returns (seqArr: seq<nat>)
      ensures |seqArr| == k && forall i | 0 <= i < k :: seqArr[i] == startSeq + i
    {
      seqArr := [];
      for i := 0 to k
        invariant |seqArr| == i && forall j | 0 <= j < i :: seqArr[j] == startSeq + j
      {
        seqArr := seqArr + [startSeq + i];
      }
    }
  }
}
