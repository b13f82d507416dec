/** fec_encode, build_decode_matrix and fec_decode on arrays of packet buffers. */
module Codec {
  import opened Gf
  import opened Linear
  import opened Shuffle
  import opened RsCode
  import opened InvertMat
  import opened Fec

  // ---------------------------------------------------------------------------------
  // Packets
  // ---------------------------------------------------------------------------------

  /** k packets of sz symbols each. */
  predicate IsData(data: seq<Vec>, k: nat, sz: nat)
  {
    |data| == k && forall i | 0 <= i < k :: |data[i]| == sz
  }

  /** The packet that one row of the encoding matrix makes out of the data, symbol by symbol. */
  function CodedPacket(row: Vec, data: seq<Vec>, sz: nat): (r: Vec)
    requires IsData(data, |row|, sz)
    ensures |r| == sz
  {
    seq(sz, s requires 0 <= s < sz => Dot(row, Col(data, s)))
  }

  predicate Sized(bufs: seq<array<gf>>, sz: nat)
  {
    forall i | 0 <= i < |bufs| :: bufs[i].Length >= sz
  }

  predicate Separate(bufs: seq<array<gf>>)
  {
    forall i, j | 0 <= i < j < |bufs| :: bufs[i] != bufs[j]
  }

  ghost function Contents(bufs: seq<array<gf>>, sz: nat): (r: seq<Vec>)
    requires Sized(bufs, sz)
    reads bufs
    ensures IsData(r, |bufs|, sz)
  {
    seq(|bufs|, i requires 0 <= i < |bufs| reads bufs => bufs[i][..sz])
  }

  /** What stands in the buffers from position `from` on. */
  ghost function Tails(bufs: seq<array<gf>>, from: nat): (r: seq<Vec>)
    requires Sized(bufs, from)
    reads bufs
    ensures |r| == |bufs|
  {
    seq(|bufs|, i requires 0 <= i < |bufs| reads bufs => bufs[i][from..])
  }

  // ---------------------------------------------------------------------------------
  // addmul
  // ---------------------------------------------------------------------------------

  const UNROLL: nat := 16

  /** dst += c * src, sixteen symbols at a time and then the rest; nothing is done when c is 0. */
  method AddMul(t: Tables, dst: array<gf>, src: array<gf>, c: gf, sz: nat)
    requires t.Valid() && dst != src && sz <= dst.Length && sz <= src.Length
    modifies dst
    ensures dst[..sz] == Plus(old(dst[..sz]), Scale(c, old(src[..sz])))
    ensures dst[sz..] == old(dst[sz..])
  {
    hide Add, Mul;
    if c == 0 {
      PlusScaleZero(dst[..sz], src[..sz]);
      return;
    }
    ghost var target := Plus(dst[..sz], Scale(c, src[..sz]));
    var at := 0;
    while at + UNROLL <= sz
      invariant at <= sz
      invariant forall s | 0 <= s < sz :: dst[s] == if s < at then target[s] else old(dst[s])
      invariant dst[sz..] == old(dst[sz..])
    {
      for u := 0 to UNROLL
        invariant forall s | 0 <= s < sz :: dst[s] == if s < at + u then target[s] else old(dst[s])
        invariant dst[sz..] == old(dst[sz..])
      {
        dst[at + u] := Add(dst[at + u], t.mul[c][src[at + u]]);
      }
      at := at + UNROLL;
    }
    while at < sz
      invariant at <= sz
      invariant forall s | 0 <= s < sz :: dst[s] == if s < at then target[s] else old(dst[s])
      invariant dst[sz..] == old(dst[sz..])
    {
      dst[at] := Add(dst[at], t.mul[c][src[at]]);
      at := at + 1;
    }
  }

  // ---------------------------------------------------------------------------------
  // Sums of scaled packets
  // ---------------------------------------------------------------------------------

  /** A row times the packets, packet by packet as the loops compute it. */
  function Combine(row: Vec, data: seq<Vec>, sz: nat): (r: Vec)
    requires IsData(data, |row|, sz)
    ensures |r| == sz
  {
    if row == [] then Zeros(sz)
    else
      var n := |row| - 1;
      Plus(Combine(row[..n], data[..n], sz), Scale(row[n], data[n]))
  }

  /** Packet by packet and symbol by symbol give the same coded packet. */
  lemma {:induction false} CombineIsCoded(row: Vec, data: seq<Vec>, sz: nat)
    requires IsData(data, |row|, sz)
    ensures Combine(row, data, sz) == CodedPacket(row, data, sz)
  {
    hide Add, Mul;
    if row != [] {
      var n := |row| - 1;
      CombineIsCoded(row[..n], data[..n], sz);
      forall s | 0 <= s < sz
        ensures Combine(row, data, sz)[s] == Dot(row, Col(data, s))
      {
        assert Col(data, s)[..n] == Col(data[..n], s);
        assert CodedPacket(row[..n], data[..n], sz)[s] == Dot(row[..n], Col(data[..n], s));
      }
    }
  }

  lemma CodedByUnit(data: seq<Vec>, k: nat, sz: nat, i: nat)
    requires IsData(data, k, sz) && i < k
    ensures CodedPacket(Unit(k, i), data, sz) == data[i]
  {
    hide Dot, Unit;
    forall s | 0 <= s < sz ensures CodedPacket(Unit(k, i), data, sz)[s] == data[i][s] {
      DotUnitLeft(Col(data, s), i);
    }
  }

  /** Clear a buffer and add in every packet times its coefficient. */
  method Accumulate(t: Tables, dst: array<gf>, src: array<array<gf>>, row: seq<gf>, k: nat, sz: nat)
    requires t.Valid() && k == |row| <= src.Length && sz <= dst.Length
    requires Sized(src[..k], sz) && dst !in src[..k]
    modifies dst
    ensures dst[..sz] == CodedPacket(row, Contents(src[..k], sz), sz)
    ensures dst[sz..] == old(dst[sz..])
  {
    hide Add, Mul, Dot, Plus, Scale;
    ghost var data := Contents(src[..k], sz);
    Clear(dst, sz);
    for i := 0 to k
      invariant dst[..sz] == Combine(row[..i], data[..i], sz)
      invariant dst[sz..] == old(dst[sz..])
    {
      assert src[..k][i] == src[i] && data[i] == src[i][..sz];
      AddMul(t, dst, src[i], row[i], sz);
      CombineNext(row, data, sz, i);
    }
    assert row[..k] == row && data[..k] == data;
    CombineIsCoded(row, data, sz);
  }

  lemma CombineNext(row: Vec, data: seq<Vec>, sz: nat, i: nat)
    requires IsData(data, |row|, sz) && i < |row|
    ensures Combine(row[..i + 1], data[..i + 1], sz) == Plus(Combine(row[..i], data[..i], sz), Scale(row[i], data[i]))
  {
    hide Plus, Scale;
    assert row[..i + 1][..i] == row[..i] && data[..i + 1][..i] == data[..i];
  }

  method Clear(dst: array<gf>, sz: nat)
    requires sz <= dst.Length
    modifies dst
    ensures dst[..sz] == Zeros(sz) && dst[sz..] == old(dst[sz..])
  {
    for s := 0 to sz
      invariant forall x | 0 <= x < s :: dst[x] == 0
      invariant dst[sz..] == old(dst[sz..])
    {
      dst[s] := 0;
    }
  }

  method Copy(dst: array<gf>, src: array<gf>, sz: nat)
    requires dst != src && sz <= dst.Length && sz <= src.Length
    modifies dst
    ensures dst[..sz] == old(src[..sz]) && dst[sz..] == old(dst[sz..])
  {
    for s := 0 to sz
      invariant dst[..s] == src[..s]
      invariant dst[sz..] == old(dst[sz..])
    {
      dst[s] := src[s];
    }
  }

  // ---------------------------------------------------------------------------------
  // fec_encode
  // ---------------------------------------------------------------------------------

  /** Packet `index` of the codeword; an index of n or more leaves the output alone. */
  method FecEncode(t: Tables, code: Code, src: array<array<gf>>, fec: array<gf>, index: nat, sz: nat)
    requires t.Valid() && code.Valid() && code.k <= src.Length && sz <= fec.Length
    requires Sized(src[..code.k], sz) && fec !in src[..code.k]
    modifies fec
    ensures index < code.n ==>
              fec[..sz] == CodedPacket(Encoder(code.k, code.n)[index], Contents(src[..code.k], sz), sz)
    ensures index >= code.n ==> fec[..] == old(fec[..])
    ensures fec[sz..] == old(fec[sz..])
  {
    hide Dot, VecMat, CodedPacket, Interpolate, Unit;
    var k := code.k;
    if index < k {
      ghost var data := Contents(src[..k], sz);
      assert src[..k][index] == src[index] && data[index] == src[index][..sz];
      CodedByUnit(data, k, sz, index);
      Copy(fec, src[index], sz);
    } else if index < code.n {
      Accumulate(t, fec, src, code.encMatrix[index], k, sz);
    }
  }

  // ---------------------------------------------------------------------------------
  // build_decode_matrix
  // ---------------------------------------------------------------------------------

  method SetRow(m: array2<gf>, i: nat, row: seq<gf>)
    requires i < m.Length0 && |row| == m.Length1
    modifies m
    ensures Rows(m) == old(Rows(m))[i := row]
  {
    ghost var before := Rows(m);
    for j := 0 to |row|
      invariant forall x, y | 0 <= x < m.Length0 && 0 <= y < m.Length1 ::
                  m[x, y] == if x == i && y < j then row[y] else before[x][y]
    {
      m[i, j] := row[j];
    }
    RowsAre(m, before[i := row]);
  }

  /** Which lists of received indices can be decoded: all below n and no two equal. */
  predicate Decodable(code: Code, index: seq<nat>)
  {
    (forall i | 0 <= i < |index| :: index[i] < code.n) && DistinctIndices(index)
  }

  method BuildDecodeMatrix(t: Tables, code: Code, index: array<nat>) returns (matrix: array2?<gf>)
    requires t.Valid() && code.Valid() && code.k <= index.Length && Settled(index[..code.k], code.k)
    ensures matrix != null <==> Decodable(code, index[..code.k])
    ensures matrix != null ==> fresh(matrix) && matrix.Length0 == matrix.Length1 == code.k
    ensures matrix != null ==> Inverses(PickRows(code.k, code.n, index[..code.k]), Rows(matrix), code.k)
  {
    hide Encoder, Inverses, Invertible, DistinctIndices, Unit;
    var k := code.k;
    ghost var picked := index[..k];
    var work := new gf[k, k];
    for i := 0 to k
      invariant forall x | 0 <= x < i :: index[x] < code.n && Rows(work)[x] == code.encMatrix[index[x]]
    {
      if index[i] < k {
        assert picked[i] == i;
        EncoderTop(k, code.n, i);
        SetRow(work, i, Unit(k, i));
      } else if index[i] < code.n {
        SetRow(work, i, code.encMatrix[index[i]]);
      } else {
        assert picked[i] >= code.n;
        return null;
      }
    }
    PickRowsAre(k, code.n, picked, Rows(work));
    PickedRowsInvertible(k, code.n, picked);
    var error := InvertMat.InvertMat(t, work, k);
    matrix := if error != 0 then null else work;
  }

  lemma EncoderTop(k: nat, n: nat, i: nat)
    requires ValidSizes(k, n) && i < k
    ensures Encoder(k, n)[i] == Unit(k, i)
  {}

  lemma PickRowsAre(k: nat, n: nat, index: seq<nat>, m: Mat)
    requires ValidSizes(k, n) && |m| == |index|
    requires forall i | 0 <= i < |index| :: index[i] < n && m[i] == Encoder(k, n)[index[i]]
    ensures m == PickRows(k, n, index)
  {
    hide Encoder;
  }

  // ---------------------------------------------------------------------------------
  // fec_decode
  // ---------------------------------------------------------------------------------

  /** The missing originals, one new buffer for every slot that holds a parity packet. */
  method ComputeMissing(t: Tables, m: array2<gf>, pkt: array<array<gf>>, index: array<nat>, k: nat, sz: nat)
    returns (newPkt: seq<array<gf>>)
    requires t.Valid() && m.Length0 == m.Length1 == k <= pkt.Length && k <= index.Length
    requires Sized(pkt[..k], sz)
    ensures |newPkt| == k
    ensures forall x | 0 <= x < k && index[x] >= k :: fresh(newPkt[x]) && newPkt[x].Length == sz
    ensures forall x | 0 <= x < k && index[x] >= k ::
              newPkt[x][..] == CodedPacket(Rows(m)[x], Contents(pkt[..k], sz), sz)
  {
    hide CodedPacket, Dot, Sized;
    ghost var received := Contents(pkt[..k], sz);
    ghost var rows := Rows(m);
    var none := new gf[0];
    newPkt := [];
    for row := 0 to k
      invariant |newPkt| == row
      invariant forall x | 0 <= x < row && index[x] >= k ::
                  fresh(newPkt[x]) && newPkt[x].Length == sz && newPkt[x][..] == CodedPacket(rows[x], received, sz)
    {
      if index[row] >= k {
        var buf := new gf[sz];
        var coefficients := seq(k, j requires 0 <= j < k reads m => m[row, j]);
        assert coefficients == rows[row];
        Accumulate(t, buf, pkt, coefficients, k, sz);
        assert buf[..] == buf[..sz];
        newPkt := newPkt + [buf];
      } else {
        newPkt := newPkt + [none];
      }
    }
  }

  /** Copy the recomputed packets over the parity packets; bytes from sz on stay. */
  method MoveBack(pkt: array<array<gf>>, index: array<nat>, newPkt: seq<array<gf>>, k: nat, sz: nat)
    requires k <= pkt.Length && k <= index.Length && |newPkt| == k
    requires Sized(pkt[..k], sz) && Separate(pkt[..k])
    requires forall x, y | 0 <= x < k && 0 <= y < k && index[x] >= k :: newPkt[x] != pkt[y]
    requires forall x | 0 <= x < k && index[x] >= k :: newPkt[x].Length == sz
    modifies pkt[..k]
    ensures forall x | 0 <= x < k ::
              pkt[x][..] == if index[x] >= k then old(newPkt[x][..]) + old(pkt[x][sz..]) else old(pkt[x][..])
  {
    for row := 0 to k
      invariant forall x | 0 <= x < k ::
                  pkt[x][..] ==
                    if index[x] >= k && x < row then old(newPkt[x][..]) + old(pkt[x][sz..]) else old(pkt[x][..])
      invariant forall x | 0 <= x < k && index[x] >= k :: newPkt[x][..] == old(newPkt[x][..])
    {
      if index[row] >= k {
        assert pkt[..k][row] == pkt[row];
        Overwrite(pkt[row], newPkt[row], sz);
      }
    }
  }

  /** The first sz bytes are replaced. */
  method Overwrite(dst: array<gf>, src: array<gf>, sz: nat)
    requires dst != src && sz <= dst.Length && src.Length == sz
    modifies dst
    ensures dst[..] == src[..] + old(dst[sz..])
  {
    Copy(dst, src, sz);
    assert src[..sz] == src[..];
    assert dst[..] == dst[..sz] + dst[sz..];
  }

  /** Slots holding an original are left alone; the others get the matching row of m times the packets. */
  method Recover(t: Tables, m: array2<gf>, pkt: array<array<gf>>, index: array<nat>, k: nat, sz: nat)
    requires t.Valid() && m.Length0 == m.Length1 == k <= pkt.Length && k <= index.Length
    requires Sized(pkt[..k], sz) && Separate(pkt[..k])
    modifies pkt[..k]
    ensures forall x | 0 <= x < k :: pkt[x][..] ==
              if index[x] >= k then CodedPacket(old(Rows(m))[x], old(Contents(pkt[..k], sz)), sz) + old(pkt[x][sz..])
              else old(pkt[x][..])
  {
    hide CodedPacket, Contents, Sized, Separate;
    var newPkt := ComputeMissing(t, m, pkt, index, k, sz);
    MoveBack(pkt, index, newPkt, k, sz);
  }

  /** The two parts of the buffers after recovery. */
  lemma RecoveredParts(bufs: seq<array<gf>>, index: seq<nat>, m: Mat, received: seq<Vec>, tails: seq<Vec>, k: nat,
                       sz: nat)
    requires |bufs| == |index| == |tails| == k && Sized(bufs, sz) && IsMat(m, k, k) && IsData(received, k, sz)
    requires forall x | 0 <= x < k :: bufs[x][..] ==
               if index[x] >= k then CodedPacket(m[x], received, sz) + tails[x] else received[x] + tails[x]
    ensures Tails(bufs, sz) == tails
    ensures forall x | 0 <= x < k ::
              Contents(bufs, sz)[x] == if index[x] >= k then CodedPacket(m[x], received, sz) else received[x]
  {
    hide CodedPacket;
    forall x | 0 <= x < k ensures bufs[x][sz..] == tails[x] && bufs[x][..sz] == bufs[x][..][..sz] {
      assert bufs[x][sz..] == bufs[x][..][sz..];
    }
  }

  /** What fec_decode leaves in slot x, in terms of what arrived there. */
  lemma DecodedSlot(code: Code, index: seq<nat>, m: Mat, data: seq<Vec>, received: seq<Vec>, sz: nat, x: nat)
    requires code.Valid() && |index| == code.k && x < code.k && Decodable(code, index) && Settled(index, code.k)
    requires IsMat(m, code.k, code.k) && Inverses(PickRows(code.k, code.n, index), m, code.k)
    requires IsData(data, code.k, sz) && IsData(received, code.k, sz)
    requires forall i | 0 <= i < code.k :: received[i] == CodedPacket(Encoder(code.k, code.n)[index[i]], data, sz)
    ensures index[x] >= code.k ==> CodedPacket(m[x], received, sz) == data[x]
    ensures index[x] < code.k ==> received[x] == data[x]
  {
    hide Dot, Encoder, Inverses;
    var k, n := code.k, code.n;
    if index[x] < k {
      EncoderTop(k, n, x);
      CodedByUnit(data, k, sz, x);
    }
    forall s | 0 <= s < sz ensures CodedPacket(m[x], received, sz)[s] == data[x][s] {
      var d := Col(data, s);
      assert Col(received, s) == Apply(PickRows(k, n, index), d) by {
        forall i | 0 <= i < k ensures received[i][s] == Dot(PickRows(k, n, index)[i], d) {}
      }
      InverseUndoes(PickRows(k, n, index), m, k, d);
      assert Apply(m, Col(received, s))[x] == Dot(m[x], Col(received, s));
    }
  }

  /** The packets that arrived are the codeword packets their indices say. */
  ghost predicate Arrived(code: Code, index: seq<nat>, received: seq<Vec>, data: seq<Vec>, sz: nat)
    requires code.Valid()
  {
    && IsData(data, code.k, sz) && |received| == |index| == code.k
    && forall i | 0 <= i < code.k ::
         index[i] < code.n && received[i] == CodedPacket(Encoder(code.k, code.n)[index[i]], data, sz)
  }

  /** Whatever data the received packets encode, the result is that data. */
  ghost predicate Recovers(code: Code, index: seq<nat>, received: seq<Vec>, result: seq<Vec>, sz: nat)
    requires code.Valid()
  {
    forall data | Arrived(code, index, received, data, sz) :: result == data
  }

  lemma ArrivedRearranged(code: Code, index: seq<nat>, received: seq<Vec>, index': seq<nat>, received': seq<Vec>,
                          perm: seq<nat>, data: seq<Vec>, sz: nat)
    requires code.Valid() && Arrived(code, index, received, data, sz)
    requires Rearranged(index, index', perm) && Rearranged(received, received', perm)
    ensures Arrived(code, index', received', data, sz)
  {
    hide Encoder, CodedPacket;
  }

  /** Decoding does not depend on the order of arrival. */
  lemma RecoversRearranged(code: Code, index: seq<nat>, received: seq<Vec>, index': seq<nat>, received': seq<Vec>,
                           perm: seq<nat>, result: seq<Vec>, sz: nat)
    requires code.Valid() && Rearranged(index, index', perm) && Rearranged(received, received', perm)
    requires Recovers(code, index', received', result, sz)
    ensures Recovers(code, index, received, result, sz)
  {
    hide Arrived, Rearranged;
    forall data | Arrived(code, index, received, data, sz) ensures result == data {
      ArrivedRearranged(code, index, received, index', received', perm, data, sz);
    }
  }

  lemma ShuffledMeans(index0: seq<nat>, index: seq<nat>, bufs0: seq<array<gf>>, bufs: seq<array<gf>>, perm: seq<nat>,
                      k: nat)
    requires Shuffled(index0, index, bufs0, bufs, perm, k)
    ensures Rearranged(index0, index, perm) && Rearranged(bufs0, bufs, perm)
    ensures DistinctIndices(index) <==> DistinctIndices(index0)
    ensures SameElements(index, index0) && SameElements(bufs, bufs0)
  {}

  ghost predicate SameElements<T>(a: seq<T>, b: seq<T>)
  {
    multiset(a) == multiset(b)
  }

  lemma AllSized(bufs: seq<array<gf>>)
    ensures Sized(bufs, 0)
  {}

  lemma WholeParts(bufs: seq<array<gf>>, sz: nat)
    requires Sized(bufs, sz)
    ensures forall x | 0 <= x < |bufs| :: sz <= bufs[x].Length && Tails(bufs, sz)[x] == bufs[x][sz..]
    ensures forall x | 0 <= x < |bufs| :: bufs[x][..] == Contents(bufs, sz)[x] + Tails(bufs, sz)[x]
  {}

  /** Equal entries of two lists of buffers have equal tails. */
  ghost predicate Match(before: seq<array<gf>>, after: seq<array<gf>>, t0: seq<Vec>, t1: seq<Vec>)
  {
    && |t0| == |before| && |t1| == |after|
    && forall x, y | 0 <= x < |before| && 0 <= y < |after| && before[x] == after[y] :: t0[x] == t1[y]
  }

  lemma TailsMatch(before: seq<array<gf>>, after: seq<array<gf>>, from: nat)
    requires Sized(before, from) && Sized(after, from)
    ensures Match(before, after, Tails(before, from), Tails(after, from))
  {}

  /** When the rearranged buffers still hold what they held, so do the original ones. */
  lemma TailsBack(before: seq<array<gf>>, after: seq<array<gf>>, from: nat, t0: seq<Vec>, t1: seq<Vec>)
    requires Sized(before, from) && Sized(after, from) && SameElements(after, before)
    requires Match(before, after, t0, t1) && Tails(after, from) == t1
    ensures Tails(before, from) == t0
  {
    forall x | 0 <= x < |before| ensures Tails(before, from)[x] == t0[x] {
      assert before[x] in multiset(before);
      assert before[x] in after;
    }
  }

  /** Being decodable does not depend on the order of arrival. */
  lemma DecodableRearranged(code: Code, before: seq<nat>, after: seq<nat>)
    requires SameElements(after, before)
    requires DistinctIndices(after) <==> DistinctIndices(before)
    ensures Decodable(code, before) <==> Decodable(code, after)
  {
    hide DistinctIndices;
    forall x ensures x in before <==> x in after {
      assert x in multiset(before) <==> x in multiset(after);
    }
    if forall i | 0 <= i < |before| :: before[i] < code.n {
      forall i | 0 <= i < |after| ensures after[i] < code.n { assert after[i] in before; }
    }
    if forall i | 0 <= i < |after| :: after[i] < code.n {
      forall i | 0 <= i < |before| ensures before[i] < code.n { assert before[i] in after; }
    }
  }

  lemma RepeatNotDecodable(code: Code, index: seq<nat>, k: nat)
    requires !NoRepeatBelow(index, k)
    ensures !Decodable(code, index)
  {}

  lemma BuffersRearranged(before: seq<array<gf>>, after: seq<array<gf>>, perm: seq<nat>, sz: nat)
    requires Rearranged(before, after, perm) && Sized(before, sz) && Separate(before)
    ensures Sized(after, sz) && Separate(after) && forall i | 0 <= i < |after| :: after[i] in before
    ensures Rearranged(Contents(before, sz), Contents(after, sz), perm)
  {
    forall i, j | 0 <= i < j < |after| ensures after[i] != after[j] {
      if perm[i] < perm[j] {} else { assert perm[j] < perm[i]; }
    }
  }

  /** The part of fec_decode after shuffle. */
  method DecodeSettled(t: Tables, code: Code, pkt: array<array<gf>>, index: array<nat>, sz: nat)
    returns (error: nat)
    requires t.Valid() && code.Valid() && code.k <= pkt.Length && code.k <= index.Length
    requires Sized(pkt[..code.k], sz) && Separate(pkt[..code.k]) && Settled(index[..code.k], code.k)
    modifies pkt[..code.k]
    ensures error == 0 || error == 1
    ensures error == 0 <==> Decodable(code, index[..code.k])
    ensures error == 0 ==>
              Recovers(code, index[..code.k], old(Contents(pkt[..code.k], sz)), Contents(pkt[..code.k], sz), sz)
    ensures Tails(pkt[..code.k], sz) == old(Tails(pkt[..code.k], sz))
    ensures error != 0 ==> Tails(pkt[..code.k], 0) == old(Tails(pkt[..code.k], 0))
  {
    hide Encoder, Decodable, Settled, Sized, Separate, Arrived, Inverses, Contents, Recovers, CodedPacket, Tails;
    var k := code.k;
    AllSized(pkt[..k]);
    var m := BuildDecodeMatrix(t, code, index);
    if m == null {
      return 1;
    }
    ghost var settled, received, rows := index[..k], Contents(pkt[..k], sz), Rows(m);
    ghost var tails := Tails(pkt[..k], sz);
    WholeParts(pkt[..k], sz);
    Recover(t, m, pkt, index, k, sz);
    RecoveredParts(pkt[..k], settled, rows, received, tails, k, sz);
    RecoversAll(code, settled, rows, received, Contents(pkt[..k], sz), sz);
    error := 0;
  }

  /** Shuffle moves buffers and indices alike and touches no byte. */
  method ShuffleLists(pkt: array<array<gf>>, index: array<nat>, k: nat) returns (error: nat, ghost perm: seq<nat>)
    requires k <= pkt.Length && k <= index.Length
    modifies pkt, index
    ensures error == 0 || error == 1
    ensures error == 0 <==> NoRepeatBelow(old(index[..k]), k)
    ensures error == 0 ==> Settled(index[..k], k)
    ensures Rearranged(old(index[..k]), index[..k], perm) && Rearranged(old(pkt[..k]), pkt[..k], perm)
    ensures DistinctIndices(index[..k]) <==> DistinctIndices(old(index[..k]))
    ensures SameElements(index[..k], old(index[..k])) && SameElements(pkt[..k], old(pkt[..k]))
    ensures pkt[k..] == old(pkt[k..])
  {
    hide Rearranged, Shuffled, Settled, NoRepeatBelow, DistinctIndices, SameElements;
    ghost var index0, bufs0 := index[..k], pkt[..k];
    error, perm := Shuffle.Shuffle(pkt, index, k);
    ShuffledMeans(index0, index[..k], bufs0, pkt[..k], perm, k);
  }

  /** The same for what the buffers hold. */
  lemma RearrangedMeans(bufs0: seq<array<gf>>, bufs: seq<array<gf>>, perm: seq<nat>, sz: nat)
    requires Rearranged(bufs0, bufs, perm) && Sized(bufs0, sz) && Separate(bufs0)
    ensures Sized(bufs, sz) && Separate(bufs) && Sized(bufs0, 0) && Sized(bufs, 0)
    ensures forall i | 0 <= i < |bufs| :: bufs[i] in bufs0
    ensures Rearranged(Contents(bufs0, sz), Contents(bufs, sz), perm)
    ensures Match(bufs0, bufs, Tails(bufs0, sz), Tails(bufs, sz))
    ensures Match(bufs0, bufs, Tails(bufs0, 0), Tails(bufs, 0))
  {
    hide Rearranged, Sized, Separate, Contents, Tails, Match;
    BuffersRearranged(bufs0, bufs, perm, sz);
    AllSized(bufs0);
    AllSized(bufs);
    TailsMatch(bufs0, bufs, sz);
    TailsMatch(bufs0, bufs, 0);
  }

  /** What shuffle means for the packets in the buffers. */
  method ShuffleBuffers(pkt: array<array<gf>>, index: array<nat>, k: nat, sz: nat)
    returns (error: nat, ghost perm: seq<nat>)
    requires k <= pkt.Length && k <= index.Length && Sized(pkt[..k], sz) && Separate(pkt[..k])
    modifies pkt, index
    ensures error == 0 || error == 1
    ensures error == 0 <==> NoRepeatBelow(old(index[..k]), k)
    ensures error == 0 ==> Settled(index[..k], k)
    ensures Rearranged(old(index[..k]), index[..k], perm) && SameElements(index[..k], old(index[..k]))
    ensures DistinctIndices(index[..k]) <==> DistinctIndices(old(index[..k]))
    ensures Sized(pkt[..k], sz) && Separate(pkt[..k])
    ensures SameElements(pkt[..k], old(pkt[..k])) && pkt[k..] == old(pkt[k..])
    ensures forall i | 0 <= i < |pkt[..k]| :: pkt[..k][i] in old(pkt[..k])
    ensures Rearranged(old(Contents(pkt[..k], sz)), Contents(pkt[..k], sz), perm)
    ensures Sized(old(pkt[..k]), sz) && Sized(old(pkt[..k]), 0) && Sized(pkt[..k], 0)
    ensures Match(old(pkt[..k]), pkt[..k], Tails(old(pkt[..k]), sz), Tails(pkt[..k], sz))
    ensures Match(old(pkt[..k]), pkt[..k], Tails(old(pkt[..k]), 0), Tails(pkt[..k], 0))
  {
    hide Rearranged, Settled, NoRepeatBelow, DistinctIndices, Sized, Separate, Contents, SameElements, Tails, Match;
    ghost var bufs0 := pkt[..k];
    error, perm := ShuffleLists(pkt, index, k);
    RearrangedMeans(bufs0, pkt[..k], perm, sz);
  }

  /**
   fec_decode: succeeds exactly when the first k indices are different and below n, and then
   the k buffers, read in slot order, are the k original packets. Otherwise the buffers may have
   changed places, but none of their bytes; bytes from sz on never change.
  */
  method FecDecode(t: Tables, code: Code, pkt: array<array<gf>>, index: array<nat>, sz: nat)
    returns (error: nat)
    requires t.Valid() && code.Valid() && code.k <= pkt.Length && code.k <= index.Length
    requires Sized(pkt[..code.k], sz) && Separate(pkt[..code.k])
    modifies pkt, index, pkt[..code.k]
    ensures error == 0 || error == 1
    ensures error == 0 <==> Decodable(code, old(index[..code.k]))
    ensures Sized(pkt[..code.k], sz) && Separate(pkt[..code.k])
    ensures SameElements(pkt[..code.k], old(pkt[..code.k])) && pkt[code.k..] == old(pkt[code.k..])
    ensures error == 0 ==>
              Recovers(code, old(index[..code.k]), old(Contents(pkt[..code.k], sz)), Contents(pkt[..code.k], sz), sz)
    ensures Sized(old(pkt[..code.k]), sz) && Sized(old(pkt[..code.k]), 0)
    ensures Tails(old(pkt[..code.k]), sz) == old(Tails(pkt[..code.k], sz))
    ensures error != 0 ==> Tails(old(pkt[..code.k]), 0) == old(Tails(pkt[..code.k], 0))
  {
    hide Encoder, Decodable, Rearranged, Settled, NoRepeatBelow, DistinctIndices, Sized, Separate, Arrived, Contents;
    hide Recovers, SameElements, Tails, Match;
    var k := code.k;
    ghost var index0, received0 := index[..k], Contents(pkt[..k], sz);
    ghost var bufs0 := pkt[..k];
    ghost var perm;
    error, perm := ShuffleBuffers(pkt, index, k, sz);
    ghost var tails0, whole0 := Tails(bufs0, sz), Tails(bufs0, 0);
    if error != 0 {
      RepeatNotDecodable(code, index0, k);
      return 1;
    }
    DecodableRearranged(code, index0, index[..k]);
    ghost var index1, received1 := index[..k], Contents(pkt[..k], sz);
    ghost var tails1, whole1 := Tails(pkt[..k], sz), Tails(pkt[..k], 0);
    error := DecodeSettled(t, code, pkt, index, sz);
    TailsBack(bufs0, pkt[..k], sz, tails0, tails1);
    if error != 0 {
      TailsBack(bufs0, pkt[..k], 0, whole0, whole1);
    } else {
      RecoversRearranged(code, index0, received0, index1, received1, perm, Contents(pkt[..k], sz), sz);
    }
  }

  lemma ContentsAt(bufs: seq<array<gf>>, sz: nat)
    requires Sized(bufs, sz)
    ensures |Contents(bufs, sz)| == |bufs| && forall x | 0 <= x < |bufs| :: Contents(bufs, sz)[x] == bufs[x][..sz]
  {}

  lemma RecoversAll(code: Code, index: seq<nat>, m: Mat, received: seq<Vec>, result: seq<Vec>, sz: nat)
    requires code.Valid() && |index| == code.k && Decodable(code, index) && Settled(index, code.k)
    requires IsMat(m, code.k, code.k) && Inverses(PickRows(code.k, code.n, index), m, code.k)
    requires IsData(received, code.k, sz) && IsData(result, code.k, sz)
    requires forall x | 0 <= x < code.k ::
               result[x] == if index[x] >= code.k then CodedPacket(m[x], received, sz) else received[x]
    ensures Recovers(code, index, received, result, sz)
  {
    hide Encoder, CodedPacket, Inverses, Arrived, Decodable, Settled;
    forall data | Arrived(code, index, received, data, sz) ensures result == data {
      AllDecoded(code, index, m, data, received, result, sz);
    }
  }

  lemma AllDecoded(code: Code, index: seq<nat>, m: Mat, data: seq<Vec>, received: seq<Vec>, result: seq<Vec>, sz: nat)
    requires code.Valid() && |index| == code.k && Decodable(code, index) && Settled(index, code.k)
    requires IsMat(m, code.k, code.k) && Inverses(PickRows(code.k, code.n, index), m, code.k)
    requires Arrived(code, index, received, data, sz)
    requires IsData(received, code.k, sz) && IsData(result, code.k, sz)
    requires forall x | 0 <= x < code.k ::
               result[x] == if index[x] >= code.k then CodedPacket(m[x], received, sz) else received[x]
    ensures result == data
  {
    hide Encoder, CodedPacket, Inverses;
    forall x | 0 <= x < code.k ensures result[x] == data[x] {
      DecodedSlot(code, index, m, data, received, sz, x);
    }
  }
}
