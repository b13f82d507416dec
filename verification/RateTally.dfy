/** RateAdaptation with SampleRate: per-rate statistics kept incrementally over a sliding window of packets. */
module RateTally {
  import opened Packets
  import LossRecords

  /** The counters that go up with an inserted packet and down with a removed one. */
  datatype Counts = Counts(
    sent: int, acked: int, naked: int, timeout: int,
    lenSent: int, lenAcked: int, lenNaked: int, lenTimeout: int, txTime: real)
  {
    function Plus(c: Counts): Counts {
      Counts(sent + c.sent, acked + c.acked, naked + c.naked, timeout + c.timeout,
             lenSent + c.lenSent, lenAcked + c.lenAcked, lenNaked + c.lenNaked, lenTimeout + c.lenTimeout,
             txTime + c.txTime)
    }
  }

  const ZERO: Counts := Counts(0, 0, 0, 0, 0, 0, 0, 0, 0.0)

  const DIFS: real := 28.0

  /** Air time of one packet in microseconds; both inter-frame spaces are the same. */
  function TxTime(length: nat, rate: nat): real
    requires rate > 0
  {
    length as real * 80.0 / rate as real + DIFS
  }

  /** What one packet adds to the statistics of a rate. */
  function Share(p: PacketInfo, rate: nat): Counts
    requires rate > 0
  {
    if p.rate != rate then ZERO
    else
      var a := if p.status.Acked? then 1 else 0;
      var n := if p.status.Naked? then 1 else 0;
      var t := if p.status.TimedOut? then 1 else 0;
      Counts(1, a, n, t, p.length, a * p.length, n * p.length, t * p.length, TxTime(p.length, rate))
  }

  /** The statistics of a rate counted from scratch. */
  function Tally(history: seq<PacketInfo>, rate: nat): Counts
    requires rate > 0
  {
    if history == [] then ZERO else Tally(history[..|history| - 1], rate).Plus(Share(history[|history| - 1], rate))
  }

  /** Acknowledged packets over all rates of the table. */
  function AllAcked(history: seq<PacketInfo>): int
  {
    if history == [] then 0
    else
      var p := history[|history| - 1];
      AllAcked(history[..|history| - 1]) + if p.status.Acked? && p.rate in RATES then 1 else 0
  }

  lemma {:induction false} TallyFirst(history: seq<PacketInfo>, rate: nat)
    requires history != [] && rate > 0
    ensures Tally(history, rate) == Share(history[0], rate).Plus(Tally(history[1..], rate))
    decreases |history|
  {
    hide Share;
    var n := |history| - 1;
    if n == 0 {
      assert history[..0] == history[1..] == [];
      assert Tally(history, rate) == ZERO.Plus(Share(history[0], rate));
    } else {
      TallyFirst(history[..n], rate);
      assert history[..n][1..] == history[1..][..n - 1];
    }
  }

  lemma {:induction false} AllAckedFirst(history: seq<PacketInfo>)
    requires history != []
    ensures AllAcked(history)
         == (if history[0].status.Acked? && history[0].rate in RATES then 1 else 0) + AllAcked(history[1..])
    decreases |history|
  {
    var n := |history| - 1;
    if n == 0 {
      assert history[..0] == history[1..] == [];
    } else {
      AllAckedFirst(history[..n]);
      assert history[..n][1..] == history[1..][..n - 1];
    }
  }

  /** Every packet counted as sent is acked, naked or timed out, unless its status is invalid. */
  lemma {:induction false} SentIsSettled(history: seq<PacketInfo>, rate: nat)
    requires rate > 0
    ensures var c := Tally(history, rate);
      c.sent >= c.acked + c.naked + c.timeout && c.acked >= 0 && c.naked >= 0 && c.timeout >= 0
    ensures var c := Tally(history, rate); c.sent == c.acked + c.naked + c.timeout <==>
              forall i | 0 <= i < |history| && history[i].rate == rate :: history[i].status in {Acked, Naked, TimedOut}
  {
    if history != [] {
      var n := |history| - 1;
      var init := history[..n];
      SentIsSettled(init, rate);
      assert forall i | 0 <= i < n :: history[i] == init[i];
    }
  }

  function SumAcked(history: seq<PacketInfo>, rates: seq<nat>): int
    requires forall i | 0 <= i < |rates| :: rates[i] > 0
  {
    if rates == [] then 0
    else SumAcked(history, rates[..|rates| - 1]) + Tally(history, rates[|rates| - 1]).acked
  }

  lemma {:induction false} SumNext(history: seq<PacketInfo>, p: PacketInfo, rates: seq<nat>)
    requires forall i | 0 <= i < |rates| :: rates[i] > 0
    requires forall i, j | 0 <= i < j < |rates| :: rates[i] != rates[j]
    ensures SumAcked(history + [p], rates)
         == SumAcked(history, rates) + if p.status.Acked? && p.rate in rates then 1 else 0
    decreases |rates|
  {
    if rates != [] {
      var n := |rates| - 1;
      SumNext(history, p, rates[..n]);
      assert (history + [p])[..|history|] == history;
      assert rates == rates[..n] + [rates[n]];
    }
  }

  lemma {:induction false} SumNone(rates: seq<nat>)
    requires forall i | 0 <= i < |rates| :: rates[i] > 0
    ensures SumAcked([], rates) == 0
    decreases |rates|
  {
    if rates != [] { SumNone(rates[..|rates| - 1]); }
  }

  /** The global count of acks is the sum over the rates. */
  lemma {:induction false} AllAckedIsSum(history: seq<PacketInfo>)
    ensures AllAcked(history) == SumAcked(history, RATES)
    decreases |history|
  {
    hide SumAcked, RATES;
    RatesAscend();
    if history == [] {
      SumNone(RATES);
    } else {
      var n := |history| - 1;
      AllAckedIsSum(history[..n]);
      SumNext(history[..n], history[n], RATES);
      assert history[..n] + [history[n]] == history;
    }
  }

  // ---------------------------------------------------------------------------------
  // The rate table
  // ---------------------------------------------------------------------------------

  datatype RateHistory = RateHistory(rate: nat, counts: Counts, contiLoss: nat)

  ghost predicate Rated(table: seq<RateHistory>)
  {
    |table| == |RATES| && forall i | 0 <= i < |table| :: table[i].rate == RATES[i]
  }

  /** The losses in a row at the rate of the packet: a loss adds one, an ack starts again. */
  ghost predicate LossesCounted(before: seq<RateHistory>, after: seq<RateHistory>, pkt: PacketInfo)
  {
    && |before| == |after|
    && forall i | 0 <= i < |after| :: after[i].contiLoss ==
         if after[i].rate != pkt.rate then before[i].contiLoss
         else if pkt.status.Acked? then 0
         else if pkt.status.Naked? || pkt.status.TimedOut? then before[i].contiLoss + 1
         else before[i].contiLoss
  }

  lemma LossesOfRow(before: seq<RateHistory>, after: seq<RateHistory>, pkt: PacketInfo, i: nat)
    requires Rated(before) && |after| == |before|
    requires forall j | 0 <= j < |before| && before[j].rate == pkt.rate :: j == i
    requires forall j | 0 <= j < |before| && j != i :: after[j] == before[j]
    requires i < |before| ==> before[i].rate == after[i].rate == pkt.rate
    requires i < |before| ==>
      after[i].contiLoss == if pkt.status.Acked? then 0
                            else if pkt.status.Naked? || pkt.status.TimedOut? then before[i].contiLoss + 1
                            else before[i].contiLoss
    ensures LossesCounted(before, after, pkt)
  {
    hide RATES;
  }

  class SampleRate {
    var rateTable: seq<RateHistory>
    var numAcked: int
    var updateRateTable: bool

    ghost predicate Agrees(history: seq<PacketInfo>)
      reads this
    {
      && Rated(rateTable) && numAcked == AllAcked(history)
      && forall i | 0 <= i < |RATES| :: RATES[i] > 0 && rateTable[i].counts == Tally(history, RATES[i])
    }

    constructor ()
      ensures Agrees([]) && updateRateTable
    {
      numAcked, updateRateTable := 0, true;
      rateTable := seq(|RATES|, i requires 0 <= i < |RATES| => RateHistory(RATES[i], ZERO, 0));
    }

    /** The first row of a rate, or the size of the table. */
    method Row(rate: nat) returns (i: nat)
      requires Rated(rateTable)
      ensures i <= |RATES| && (i < |RATES| ==> RATES[i] == rate) && (i == |RATES| <==> rate !in RATES)
      ensures forall j | 0 <= j < |RATES| && RATES[j] == rate :: j == i
    {
      hide RATES;
      RatesAscend();
      i := 0;
      while i < |rateTable|
        invariant i <= |RATES| && forall j | 0 <= j < i :: RATES[j] != rate
      {
        if rateTable[i].rate == rate {
          break;
        }
        i := i + 1;
      }
    }

    method InsertIntoRateTable(pkt: PacketInfo, ghost history: seq<PacketInfo>)
      requires Agrees(history)
      modifies this
      ensures Agrees(history + [pkt]) && updateRateTable
      ensures LossesCounted(old(rateTable), rateTable, pkt)
    {
      hide RATES, Share, Tally, LossesCounted;
      RatesAscend();
      ghost var all := history + [pkt];
      assert all[..|history|] == history;
      var i := Row(pkt.rate);
      forall j | 0 <= j < |RATES| ensures Tally(all, RATES[j]) == Tally(history, RATES[j]).Plus(Share(pkt, RATES[j])) {
        TallyLast(history, pkt, RATES[j]);
      }
      ghost var before := rateTable;
      if i < |rateTable| {
        var row := rateTable[i];
        var lost :=
          if pkt.status.Acked? then 0
          else if pkt.status.Naked? || pkt.status.TimedOut? then row.contiLoss + 1
          else row.contiLoss;
        if pkt.status.Acked? {
          numAcked := numAcked + 1;
        }
        rateTable := rateTable[i := RateHistory(row.rate, row.counts.Plus(Change(pkt, 1, row.rate)), lost)];
      }
      LossesOfRow(before, rateTable, pkt, i);
      forall j | 0 <= j < |RATES| ensures rateTable[j].counts == Tally(all, RATES[j]) {
        assert before[j].counts == Tally(history, RATES[j]);
        ChangeIsShare(before[j].counts, pkt, RATES[j]);
      }
      updateRateTable := true;
    }

    method RemoveFromRateTable(pkt: PacketInfo, ghost history: seq<PacketInfo>)
      requires history != [] && pkt == history[0] && Agrees(history)
      modifies this
      ensures Agrees(history[1..]) && updateRateTable && |old(rateTable)| == |rateTable|
      ensures forall i | 0 <= i < |rateTable| :: rateTable[i].contiLoss == old(rateTable)[i].contiLoss
    {
      hide RATES, Share, Tally;
      RatesAscend();
      AllAckedFirst(history);
      var i := Row(pkt.rate);
      forall j | 0 <= j < |RATES|
        ensures Tally(history, RATES[j]) == Share(pkt, RATES[j]).Plus(Tally(history[1..], RATES[j]))
      {
        TallyFirst(history, RATES[j]);
      }
      ghost var before := rateTable;
      if i < |rateTable| {
        var row := rateTable[i];
        if pkt.status.Acked? {
          numAcked := numAcked - 1;
        }
        rateTable := rateTable[i := RateHistory(row.rate, row.counts.Plus(Change(pkt, -1, row.rate)), row.contiLoss)];
      }
      forall j | 0 <= j < |RATES| ensures rateTable[j].counts == Tally(history[1..], RATES[j]) {
        assert before[j].counts == Tally(history, RATES[j]);
        ChangeUndoes(Tally(history[1..], RATES[j]), pkt, RATES[j]);
      }
      updateRateTable := true;
    }
  }

  /** The updates of one row, up or down. */
  function Change(p: PacketInfo, sign: int, rate: nat): Counts
    requires rate > 0
  {
    var t := sign as real * TxTime(p.length, rate);
    match p.status
    case Acked => Counts(sign, sign, 0, 0, sign * p.length, sign * p.length, 0, 0, t)
    case Naked => Counts(sign, 0, sign, 0, sign * p.length, 0, sign * p.length, 0, t)
    case TimedOut => Counts(sign, 0, 0, sign, sign * p.length, 0, 0, sign * p.length, t)
    case _ => Counts(sign, 0, 0, 0, sign * p.length, 0, 0, 0, t)
  }

  lemma TallyLast(history: seq<PacketInfo>, p: PacketInfo, rate: nat)
    requires rate > 0
    ensures Tally(history + [p], rate) == Tally(history, rate).Plus(Share(p, rate))
  {
    assert (history + [p])[..|history|] == history;
  }

  lemma ChangeIsShare(c: Counts, p: PacketInfo, rate: nat)
    requires rate > 0
    ensures c.Plus(Share(p, rate)) == if p.rate == rate then c.Plus(Change(p, 1, rate)) else c
  {}

  lemma ChangeUndoes(c: Counts, p: PacketInfo, rate: nat)
    requires rate > 0
    ensures var d := Share(p, rate).Plus(c); c == if p.rate == rate then d.Plus(Change(p, -1, rate)) else d
  {}

  // ---------------------------------------------------------------------------------
  // The sliding window
  // ---------------------------------------------------------------------------------

  /** 10.5 seconds. */
  const DURATION: nat := 10_500_000_000

  function Young(now: int): PacketInfo -> bool
  {
    (p: PacketInfo) => p.timer + DURATION > now
  }

  /** With a clock that never runs back, exactly the packets younger than that remain. */
  lemma InOrderIsExact(history: seq<PacketInfo>, now: int)
    requires Sorted(history)
    ensures DropOld(history, Young(now)) == Kept(history, Young(now))
  {
    hide Sorted;
    SortedDropIsExact(history, Young(now));
  }

  class RateAdaptation {
    var history: seq<PacketInfo>
    const baseRate: SampleRate

    /** The incremental statistics agree with a count of the packets in the window. */
    ghost predicate Valid()
      reads this, baseRate
    {
      baseRate.Agrees(history)
    }

    constructor ()
      ensures Valid() && fresh(baseRate) && history == []
    {
      history := [];
      baseRate := new SampleRate();
    }

    method InsertRecord(seqNum: nat, status: PacketStatus, rate: nat, length: nat, now: int)
      requires Valid()
      modifies this`history, baseRate
      ensures Valid()
      ensures history == if status.Sent? then old(history)
                         else DropOld(old(history) + [PacketInfo(now, seqNum, rate, length, status)], Young(now))
    {
      hide Tally, AllAcked, DropOld;
      if status.Sent? {
        return;  // reserved for future usage
      }
      var pkt := PacketInfo(now, seqNum, rate, length, status);
      baseRate.InsertIntoRateTable(pkt, history);
      history := history + [pkt];
      UpdateRecords(now);
    }

    method UpdateRecords(now: int)
      requires Valid()
      modifies this`history, baseRate
      ensures Valid() && history == DropOld(old(history), Young(now))
    {
      hide Tally, AllAcked, DropOld;
      ghost var all := history;
      ghost var n := 0;
      while history != []
        invariant n <= |all| && history == all[n..] && baseRate.Agrees(history)
        invariant forall i | 0 <= i < n :: !Young(now)(all[i])
        decreases |history|
        modifies this`history, baseRate
      {
        var pkt := history[0];
        if pkt.timer + DURATION > now {
          break;
        }
        baseRate.RemoveFromRateTable(pkt, history);
        history := history[1..];
        n := n + 1;
      }
      DropOldIs(all, Young(now), n);
    }
  }

  // ---------------------------------------------------------------------------------
  // Statuses without a column
  // ---------------------------------------------------------------------------------

  /** A packet of invalid status is counted as sent and nowhere else. */
  lemma InvalidCountedAsSent(p: PacketInfo)
    requires p.rate > 0 && p.status.InValid?
    ensures Tally([p], p.rate) ==
              Counts(1, 0, 0, 0, p.length, 0, 0, 0, p.length as real * 80.0 / p.rate as real + DIFS)
    ensures var c := Tally([p], p.rate); c.sent != c.acked + c.naked + c.timeout
  {
    TallyLast([], p, p.rate);
    assert [] + [p] == [p];
  }

  predicate Settled(status: PacketStatus) { status in {Acked, Naked, TimedOut} }

  predicate OnlySettled(history: seq<PacketInfo>)
  {
    forall q | q in history :: Settled(q.status)
  }

  lemma SettledDrop(history: seq<PacketInfo>, p: PacketInfo, now: int)
    requires Settled(p.status) && OnlySettled(history)
    ensures OnlySettled(DropOld(history + [p], Young(now)))
  {
    hide Olds, Settled;
    var all := history + [p];
    var r := DropOld(all, Young(now));
    assert forall q | q in all :: q in history || q == p;
    assert forall q | q in r :: q in all;
  }

  /** sent = acked + naked + timed out at every rate. */
  ghost predicate ColumnsAddUp(history: seq<PacketInfo>)
  {
    forall r: nat | r > 0 :: var c := Tally(history, r); c.sent == c.acked + c.naked + c.timeout
  }

  lemma SettledAddUp(history: seq<PacketInfo>)
    requires OnlySettled(history)
    ensures ColumnsAddUp(history)
  {
    hide Tally;
    forall r: nat | r > 0
      ensures var c := Tally(history, r); c.sent == c.acked + c.naked + c.timeout
    {
      SentIsSettled(history, r);
      assert forall i | 0 <= i < |history| :: history[i] in history;
    }
  }

  datatype Laptop = Invalid | Front | Back | FrontScout | AfterCombine

  /**
   The only way in from the receivers' reports. A version with a baseline algorithm also records
   what the back antenna reports. The first record a packet goes to admits only settled statuses,
   so every column sum holds in what the baseline keeps. Any other antenna stops the program.
  */
  method InsertFeedback(front: LossRecords.FeedbackRecords, back: LossRecords.FeedbackRecords,
                        baseline: RateAdaptation, hasBaseline: bool, laptop: Laptop,
                        seqNum: nat, status: PacketStatus, rate: nat, length: nat, time: int, now: int)
    returns (ok: bool)
    requires front != back && baseline.Valid() && OnlySettled(baseline.history)
    requires laptop.Front? || laptop.Back? ==> Settled(status)
    modifies front`records, back`records, baseline`history, baseline.baseRate
    ensures ok <==> laptop.Front? || laptop.Back?
    ensures baseline.Valid() && OnlySettled(baseline.history) && ColumnsAddUp(baseline.history)
    ensures var p := PacketInfo(time, seqNum, rate, 0, status);
      && front.records == (if laptop.Front? then LossRecords.Inserted(old(front.records), p, front.duration)
                           else old(front.records))
      && back.records == if laptop.Back? then LossRecords.Inserted(old(back.records), p, back.duration)
                         else old(back.records)
    ensures baseline.history == if laptop.Back? && hasBaseline
                                then DropOld(old(baseline.history) + [PacketInfo(now, seqNum, rate, length, status)],
                                             Young(now))
                                else old(baseline.history)
  {
    hide DropOld, Tally, AllAcked, OnlySettled, ColumnsAddUp, LossRecords.Inserted;
    ok := true;
    match laptop {
      case Front =>
        var removed := front.InsertPacket(seqNum, status, rate, time);
      case Back =>
        var removed := back.InsertPacket(seqNum, status, rate, time);
        if hasBaseline {
          SettledDrop(baseline.history, PacketInfo(now, seqNum, rate, length, status), now);
          baseline.InsertRecord(seqNum, status, rate, length, now);
        }
      case _ =>
        ok := false;
    }
    SettledAddUp(baseline.history);
  }
}
