/** TxRawBuf: the fate of every raw packet on the air, learnt from raw acks that each cover one window. */
module RawBuf {
  const MAX_RAW_BUF_SIZE: nat := 4000

  datatype Status = Bad | Unknown | Good

  datatype Info = Info(seqNum: nat, rate: nat, len: nat, status: Status)

  /** A raw ack: numPkts packets ending at endSeq, of which nacks were not received. */
  datatype Window = Window(endSeq: nat, numPkts: nat, nacks: seq<nat>) {
    function Begin(): int { endSeq - numPkts + 1 }

    /** Not empty, and its nacks ascend inside it. */
    ghost predicate WellFormed()
    {
      && 1 <= numPkts <= endSeq + 1
      && (forall i | 0 <= i < |nacks| :: Begin() <= nacks[i] <= endSeq)
      && forall i, j | 0 <= i < j < |nacks| :: nacks[i] < nacks[j]
    }
  }

  /** Why an entry was reported. */
  datatype Reason = ByWindow(window: Window) | Flushed

  function Verdict(info: Info, nacks: seq<nat>): Info
  {
    info.(status := if info.seqNum in nacks then Bad else Good)
  }

  /** The first i nacks are marked bad, the rest of the deque is as it was. */
  ghost predicate Marked(before: seq<Info>, now: seq<Info>, nacks: seq<nat>)
  {
    && |now| == |before|
    && forall i | 0 <= i < |now| ::
         now[i] == if before[i].seqNum in nacks then before[i].(status := Bad) else before[i]
  }

  /** Consecutive sequence numbers that end just before next. */
  ghost predicate Consecutive(deq: seq<Info>, next: nat)
  {
    |deq| <= next && forall i | 0 <= i < |deq| :: deq[i].seqNum == next - |deq| + i
  }

  ghost predicate UnknownAfter(deq: seq<Info>, lastEnd: int)
  {
    forall i | 0 <= i < |deq| && deq[i].seqNum > lastEnd :: deq[i].status.Unknown?
  }

  /** Reports come in increasing order, so no sequence number is reported twice. */
  ghost predicate Increasing(infos: seq<Info>)
  {
    forall i, j | 0 <= i < j < |infos| :: infos[i].seqNum < infos[j].seqNum
  }

  /** A verdict comes from a window that covers the packet, and says bad exactly for its nacks. */
  ghost predicate Justified(info: Info, reason: Reason)
  {
    match reason
    case Flushed => info.status.Bad?
    case ByWindow(w) =>
      && w.Begin() <= info.seqNum <= w.endSeq
      && info.status == if info.seqNum in w.nacks then Bad else Good
  }

  /** What was reported so far: in increasing order, below everything still held, and for a reason. */
  ghost predicate History(reported: seq<Info>, reasons: seq<Reason>, bound: int)
  {
    && Increasing(reported) && |reasons| == |reported|
    && (forall i | 0 <= i < |reported| :: reported[i].seqNum < bound)
    && forall i | 0 <= i < |reported| :: Justified(reported[i], reasons[i])
  }

  lemma HistoryGrows(reported: seq<Info>, reasons: seq<Reason>, bound: int, more: seq<Info>, reason: Reason,
                     bound': int)
    requires History(reported, reasons, bound) && bound + |more| <= bound'
    requires forall i | 0 <= i < |more| :: more[i].seqNum == bound' - |more| + i && Justified(more[i], reason)
    ensures History(reported + more, reasons + seq(|more|, _ => reason), bound')
  {
    hide Justified;
  }

  /** The position of a sequence number in the deque, or -1. */
  function GetInd(deq: seq<Info>, seqNum: nat): (ind: int)
    ensures 0 <= ind <==> Held(deq, seqNum)
    ensures 0 <= ind ==> ind < |deq| && ind == seqNum - deq[0].seqNum
  {
    if deq == [] then -1
    else
      var ind := seqNum - deq[0].seqNum;
      if ind < 0 || ind >= |deq| then -1 else ind
  }

  predicate Held(deq: seq<Info>, seqNum: nat)
  {
    deq != [] && deq[0].seqNum <= seqNum < deq[0].seqNum + |deq|
  }

  function AllBad(deq: seq<Info>): (r: seq<Info>)
    ensures |r| == |deq| && forall i | 0 <= i < |deq| :: r[i] == deq[i].(status := Bad)
  {
    seq(|deq|, i requires 0 <= i < |deq| => deq[i].(status := Bad))
  }

  /** The length of the longest prefix whose fate is known. */
  function KnownPrefix(deq: seq<Info>): (n: nat)
    ensures n <= |deq| && (forall i | 0 <= i < n :: !deq[i].status.Unknown?)
    ensures n < |deq| ==> deq[n].status.Unknown?
  {
    if deq == [] || deq[0].status.Unknown? then 0 else 1 + KnownPrefix(deq[1..])
  }

  lemma KnownPrefixIs(deq: seq<Info>, n: nat)
    requires n <= |deq| && (forall i | 0 <= i < n :: !deq[i].status.Unknown?)
    requires n < |deq| ==> deq[n].status.Unknown?
    ensures KnownPrefix(deq) == n
  {}

  /** The deque after the nacks of a window whose start is not held: marked only if the first nack is held. */
  function NacksOnly(deq: seq<Info>, nacks: seq<nat>): (r: seq<Info>)
    ensures |r| == |deq|
  {
    if nacks == [] || !Held(deq, nacks[0]) then deq
    else seq(|deq|, i requires 0 <= i < |deq| => if deq[i].seqNum in nacks then deq[i].(status := Bad) else deq[i])
  }

  /** The deque with the verdicts of a window filled in. */
  function Judged(deq: seq<Info>, w: Window): (r: seq<Info>)
    ensures |r| == |deq|
  {
    seq(|deq|, i requires 0 <= i < |deq| =>
      if w.Begin() <= deq[i].seqNum <= w.endSeq then Verdict(deq[i], w.nacks) else deq[i])
  }

  lemma MarkedNext(before: seq<Info>, now: seq<Info>, nacks: seq<nat>, i: nat, ind: nat)
    requires i < |nacks| && Marked(before, now, nacks[..i]) && ind < |now| && before[ind].seqNum == nacks[i]
    requires forall j | 0 <= j < |before| && before[j].seqNum == nacks[i] :: j == ind
    ensures Marked(before, now[ind := now[ind].(status := Bad)], nacks[..i + 1])
  {
    assert nacks[..i + 1] == nacks[..i] + [nacks[i]];
  }

  /** Marking the nacks bad and the rest of the window good gives the verdicts. */
  lemma JudgedIs(before: seq<Info>, marked: seq<Info>, now: seq<Info>, w: Window, next: nat, lastEnd: int)
    requires Consecutive(before, next) && UnknownAfter(before, lastEnd) && lastEnd < w.Begin() && w.WellFormed()
    requires Marked(before, marked, w.nacks) && Held(before, w.Begin()) && Held(before, w.endSeq)
    requires |now| == |marked| && forall j | 0 <= j < |now| ::
      now[j] == if w.Begin() - before[0].seqNum <= j < w.endSeq - before[0].seqNum + 1 && marked[j].status.Unknown?
                then marked[j].(status := Good) else marked[j]
    ensures now == Judged(before, w)
  {}

  /** The deque from the start of a held window on: its verdicts, then packets not yet judged. */
  lemma FromBegin(before: seq<Info>, pushed: seq<Info>, w: Window, next: nat, lastEnd: int)
    requires Consecutive(before, next) && UnknownAfter(before, lastEnd) && lastEnd < w.Begin() && w.WellFormed()
    requires w.endSeq < next && Held(before, w.Begin()) && pushed == Judged(before, w)[w.Begin() - before[0].seqNum..]
    ensures var from := w.Begin() - before[0].seqNum;
      && from + |pushed| == |before| && w.numPkts <= |pushed|
      && (forall i | 0 <= i < w.numPkts :: pushed[i] == Verdict(before[from + i], w.nacks))
      && (forall i | w.numPkts <= i < |pushed| :: pushed[i] == before[from + i] && pushed[i].status.Unknown?)
      && forall i | 0 <= i < |pushed| :: pushed[i].seqNum == next - |pushed| + i
  {}

  lemma HeldReport(before: seq<Info>, pushed: seq<Info>, w: Window, next: nat, lastEnd: int)
    requires Consecutive(before, next) && UnknownAfter(before, lastEnd) && lastEnd < w.Begin() && w.WellFormed()
    requires w.endSeq < next && Held(before, w.Begin()) && pushed == Judged(before, w)[w.Begin() - before[0].seqNum..]
    ensures KnownPrefix(pushed) == w.numPkts
    ensures Consecutive(pushed[w.numPkts..], next) && UnknownAfter(pushed[w.numPkts..], w.endSeq)
    ensures w.Begin() - before[0].seqNum + |pushed| == |before| && |pushed| <= |before|
    ensures forall i | 0 <= i < w.numPkts :: pushed[i].seqNum == next - |pushed| + i
    ensures forall i | 0 <= i < w.numPkts :: Justified(pushed[i], ByWindow(w))
    ensures forall i | 0 <= i < w.numPkts ::
      pushed[i] == Verdict(before[w.Begin() - before[0].seqNum + i], w.nacks) && pushed[i].seqNum == w.Begin() + i
    ensures pushed[w.numPkts..] == before[w.Begin() - before[0].seqNum + w.numPkts..]
  {
    hide Judged;
    FromBegin(before, pushed, w, next, lastEnd);
    KnownPrefixIs(pushed, w.numPkts);
  }

  lemma NacksOnlyIs(before: seq<Info>, w: Window, next: nat, lastEnd: int)
    requires Consecutive(before, next) && UnknownAfter(before, lastEnd) && lastEnd < w.Begin() && w.WellFormed()
    ensures var pushed := NacksOnly(before, w.nacks);
      && (forall i | 0 <= i < |pushed| :: pushed[i].seqNum == next - |pushed| + i)
      && (forall i | 0 <= i < |pushed| && pushed[i].seqNum > w.endSeq :: pushed[i].status.Unknown?)
      && forall i | 0 <= i < |pushed| && pushed[i].seqNum > lastEnd && !pushed[i].status.Unknown? ::
          Justified(pushed[i], ByWindow(w))
  {}

  lemma PartialReport(before: seq<Info>, pushed: seq<Info>, w: Window, next: nat, lastEnd: int)
    requires Consecutive(before, next) && UnknownAfter(before, lastEnd) && lastEnd < w.Begin() && w.WellFormed()
    requires w.endSeq < next && !Held(before, w.Begin()) && pushed == NacksOnly(before, w.nacks)
    ensures var k := KnownPrefix(pushed); Consecutive(pushed[k..], next) && UnknownAfter(pushed[k..], w.endSeq)
    ensures forall i | 0 <= i < KnownPrefix(pushed) :: pushed[i].seqNum == next - |pushed| + i
    ensures |pushed| == |before|
    ensures forall i | 0 <= i < KnownPrefix(pushed) :: Justified(pushed[i], ByWindow(w))
  {
    hide NacksOnly, Justified;
    NacksOnlyIs(before, w, next, lastEnd);
  }

  /** What a window makes of the deque: its report and what stays behind. */
  ghost predicate WindowReported(before: seq<Info>, w: Window, report: seq<Info>, rest: seq<Info>)
    requires w.WellFormed()
  {
    if Held(before, w.Begin()) then
      var from := w.Begin() - before[0].seqNum;
      && |report| == w.numPkts && from + w.numPkts <= |before|
      && (forall i | 0 <= i < w.numPkts ::
           report[i].seqNum == w.Begin() + i && report[i] == Verdict(before[from + i], w.nacks))
      && rest == before[from + w.numPkts..]
    else
      var known := NacksOnly(before, w.nacks);
      report == known[..KnownPrefix(known)] && rest == known[KnownPrefix(known)..]
  }

  /** The known prefix of the pushed deque is the report of the window, in either case. */
  lemma PoppedReport(before: seq<Info>, pushed: seq<Info>, report: seq<Info>, rest: seq<Info>, w: Window, next: nat,
                     lastEnd: int)
    requires Consecutive(before, next) && UnknownAfter(before, lastEnd) && lastEnd < w.Begin() && w.WellFormed()
    requires w.endSeq < next
    requires !Held(before, w.Begin()) ==> pushed == NacksOnly(before, w.nacks)
    requires Held(before, w.Begin()) ==> pushed == Judged(before, w)[w.Begin() - before[0].seqNum..]
    requires report == pushed[..KnownPrefix(pushed)] && rest == pushed[KnownPrefix(pushed)..]
    ensures WindowReported(before, w, report, rest)
    ensures Consecutive(rest, next) && UnknownAfter(rest, w.endSeq) && |report| + |rest| <= |before|
    ensures forall i | 0 <= i < |report| ::
              report[i].seqNum == next - |rest| - |report| + i && Justified(report[i], ByWindow(w))
  {
    hide Judged, NacksOnly, Consecutive, UnknownAfter, Justified, Verdict, KnownPrefix;
    if Held(before, w.Begin()) {
      HeldReport(before, pushed, w, next, lastEnd);
    } else {
      PartialReport(before, pushed, w, next, lastEnd);
    }
  }

  class TxRawBuf {
    var deq: seq<Info>
    ghost var next: nat
    ghost var lastEnd: int
    ghost var reported: seq<Info>
    ghost var reasons: seq<Reason>

    ghost predicate Valid()
      reads this
    {
      && |deq| <= MAX_RAW_BUF_SIZE && Consecutive(deq, next) && UnknownAfter(deq, lastEnd) && lastEnd < next
      && History(reported, reasons, next - |deq|)
    }

    constructor (first: nat)
      ensures Valid() && deq == [] && next == first && lastEnd == -1 && reported == []
    {
      deq, next, lastEnd, reported, reasons := [], first, -1, [], [];
    }

    /** Raw packets are numbered consecutively; a full buffer is flushed first, and only then statusVec is set. */
    method PushPktStatus(statusVec0: seq<Info>, info: Info) returns (statusVec: seq<Info>)
      requires Valid() && info.seqNum == next && info.status.Unknown?
      modifies this
      ensures Valid() && next == old(next) + 1 && lastEnd == old(lastEnd)
      ensures |old(deq)| < MAX_RAW_BUF_SIZE ==>
          deq == old(deq) + [info] && reported == old(reported) && statusVec == statusVec0
      ensures |old(deq)| >= MAX_RAW_BUF_SIZE ==>
                deq == [info] && statusVec == AllBad(old(deq)) && reported == old(reported) + statusVec
    {
      statusVec := statusVec0;
      if |deq| >= MAX_RAW_BUF_SIZE {
        statusVec := ClearPktStatus();
      }
      deq := deq + [info];
      next := next + 1;
    }

    /** The loop over the nacks: stops at the first one that is not held. */
    method MarkNacks(nacks: seq<nat>) returns (ok: bool)
      requires Consecutive(deq, next) && UnknownAfter(deq, lastEnd)
      requires forall i | 0 <= i < |nacks| :: lastEnd < nacks[i] < next
      requires forall i, j | 0 <= i < j < |nacks| :: nacks[i] < nacks[j]
      modifies this`deq
      ensures deq == NacksOnly(old(deq), nacks)
      ensures ok <==> nacks == [] || Held(old(deq), nacks[0])
    {
      ghost var before := deq;
      for i := 0 to |nacks|
        invariant Marked(before, deq, nacks[..i]) && (i > 0 ==> Held(before, nacks[0]))
      {
        var ind := GetInd(deq, nacks[i]);
        if ind < 0 {
          assert i == 0;
          return false;
        }
        assert before[ind].seqNum == nacks[i] && nacks[i] !in nacks[..i];
        assert deq[ind].status.Unknown?;
        MarkedNext(before, deq, nacks, i, ind);
        deq := deq[ind := deq[ind].(status := Bad)];
      }
      assert nacks[..|nacks|] == nacks;
      ok := true;
    }

    /** Marks the window; returns early, after the nacks, when the window's start is gone. */
    method PushPkts(w: Window)
      requires Consecutive(deq, next) && UnknownAfter(deq, lastEnd)
      requires w.WellFormed() && lastEnd < w.Begin() && w.endSeq < next
      modifies this`deq
      ensures !Held(old(deq), w.Begin()) ==> deq == NacksOnly(old(deq), w.nacks)
      ensures Held(old(deq), w.Begin()) ==> deq == Judged(old(deq), w)[w.Begin() - old(deq)[0].seqNum..]
    {
      ghost var before := deq;
      var ok := MarkNacks(w.nacks);
      if !ok {
        return;
      }
      var beginInd := GetInd(deq, w.Begin());
      var endInd := GetInd(deq, w.endSeq);
      if beginInd < 0 || endInd < 0 {
        return;
      }
      ghost var marked := deq;
      for i := beginInd to endInd + 1
        invariant |deq| == |marked| && forall j | 0 <= j < |deq| ::
          deq[j] == if beginInd <= j < i && marked[j].status.Unknown? then marked[j].(status := Good) else marked[j]
      {
        if deq[i].status.Unknown? {
          deq := deq[i := deq[i].(status := Good)];
        }
      }
      JudgedIs(before, marked, deq, w, next, lastEnd);
      if beginInd > 0 {
        deq := deq[beginInd..];
      }
    }

    /** Pops the packets whose fate is known, in order. */
    method PopKnown() returns (statusVec: seq<Info>)
      modifies this`deq
      ensures statusVec == old(deq)[..KnownPrefix(old(deq))] && deq == old(deq)[KnownPrefix(old(deq))..]
    {
      statusVec := [];
      var it := 0;
      while it < |deq|
        invariant it <= |deq| && deq == old(deq) && statusVec == deq[..it]
        invariant forall i | 0 <= i < it :: !deq[i].status.Unknown?
      {
        if deq[it].status.Unknown? {
          break;
        }
        statusVec := statusVec + [deq[it]];
        it := it + 1;
      }
      KnownPrefixIs(deq, it);
      deq := deq[it..];
    }

    /** A window whose start is still held is reported exactly; otherwise at most some of its nacks are. */
    method PopPktStatus(w: Window) returns (statusVec: seq<Info>)
      requires Valid() && w.WellFormed() && lastEnd < w.Begin() && w.endSeq < next
      modifies this
      ensures Valid() && next == old(next) && lastEnd == w.endSeq && reported == old(reported) + statusVec
      ensures WindowReported(old(deq), w, statusVec, deq)
    {
      hide Judged, NacksOnly, History, KnownPrefix, UnknownAfter, Held, Consecutive, Justified, WindowReported;
      ghost var before := deq;
      PushPkts(w);
      ghost var pushed := deq;
      statusVec := PopKnown();
      PoppedReport(before, pushed, statusVec, deq, w, next, lastEnd);
      HistoryGrows(reported, reasons, next - |before|, statusVec, ByWindow(w), next - |deq|);
      lastEnd := w.endSeq;
      reported := reported + statusVec;
      reasons := reasons + seq(|statusVec|, _ => ByWindow(w));
    }

    /** Everything still held is reported as bad. */
    method ClearPktStatus() returns (statusVec: seq<Info>)
      requires Valid()
      modifies this
      ensures Valid() && next == old(next) && lastEnd == old(lastEnd)
      ensures deq == [] && statusVec == AllBad(old(deq)) && reported == old(reported) + statusVec
    {
      statusVec := [];
      for i := 0 to |deq|
        invariant |deq| == |old(deq)| && statusVec == AllBad(old(deq))[..i] && next == old(next)
        invariant forall j | 0 <= j < |deq| :: deq[j] == if j < i then old(deq)[j].(status := Bad) else old(deq)[j]
        modifies this`deq
      {
        deq := deq[i := deq[i].(status := Bad)];
        statusVec := statusVec + [deq[i]];
      }
      HistoryGrows(reported, reasons, next - |deq|, statusVec, Flushed, next);
      deq := [];
      reported := reported + statusVec;
      reasons := reasons + seq(|statusVec|, _ => Flushed);
    }
  }
}
