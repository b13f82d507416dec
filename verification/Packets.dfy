/** The packet records and rates that the loss and rate statistics share, and what a sliding window keeps of them. */
module Packets {
  datatype PacketStatus = InValid | TimedOut | Naked | Sent | Acked

  /** Times are whole nanoseconds, rates in 100 kbit/s, lengths in bytes. */
  datatype PacketInfo = PacketInfo(timer: int, seqNum: nat, rate: nat, length: nat, status: PacketStatus)

  const RATES: seq<nat> := [10, 20, 55, 60, 90, 110, 120, 180, 240]

  lemma RatesAscend()
    ensures |RATES| == 9 && RATES[0] == 10 && RATES[8] == 240
    ensures forall i, j | 0 <= i < j < |RATES| :: RATES[i] < RATES[j]
    ensures forall i | 0 <= i < |RATES| :: 10 <= RATES[i] <= 240
    ensures forall rate | rate in RATES :: 10 <= rate <= 240
  {}

  predicate Sorted(records: seq<PacketInfo>)
  {
    forall i, j | 0 <= i < j < |records| :: records[i].timer <= records[j].timer
  }

  /** The records young enough, in order. */
  function Kept(records: seq<PacketInfo>, young: PacketInfo -> bool): seq<PacketInfo>
  {
    if records == [] then []
    else
      var p := records[|records| - 1];
      Kept(records[..|records| - 1], young) + if young(p) then [p] else []
  }

  lemma KeptLast(records: seq<PacketInfo>, young: PacketInfo -> bool)
    requires records != []
    ensures var m := |records| - 1;
      Kept(records, young) ==
        if young(records[m]) then Kept(records[..m], young) + [records[m]] else Kept(records[..m], young)
  {}

  /** When the records that qualify stand together, what is kept is that slice. */
  lemma {:induction false} KeptIsSlice(records: seq<PacketInfo>, young: PacketInfo -> bool, from: nat, to: nat)
    requires from <= to <= |records|
    requires forall i | 0 <= i < |records| :: young(records[i]) <==> from <= i < to
    ensures Kept(records, young) == records[from..to]
    decreases |records|
  {
    hide Kept;
    if records == [] {
      KeptNone(young);
    } else {
      var m := |records| - 1;
      var init := records[..m];
      KeptLast(records, young);
      assert forall i | 0 <= i < m :: init[i] == records[i];
      if to <= m {
        KeptIsSlice(init, young, from, to);
        assert init[from..to] == records[from..to];
      } else if from <= m {
        KeptIsSlice(init, young, from, m);
        assert init[from..m] + [records[m]] == records[from..to];
      } else {
        KeptIsSlice(init, young, m, m);
        assert init[m..m] == records[from..to] == [];
      }
    }
  }

  lemma {:induction false} KeptAppend(a: seq<PacketInfo>, b: seq<PacketInfo>, young: PacketInfo -> bool)
    ensures Kept(a + b, young) == Kept(a, young) + Kept(b, young)
    decreases |b|
  {
    hide Kept;
    if b == [] {
      assert a + b == a;
      KeptNone(young);
    } else {
      var m := |b| - 1;
      KeptAppend(a, b[..m], young);
      KeptLast(b, young);
      KeptLast(a + b, young);
      assert (a + b)[..|a + b| - 1] == a + b[..m];
    }
  }

  lemma KeptNone(young: PacketInfo -> bool)
    ensures Kept([], young) == []
  {}

  /** How many records stand before the first one that is young enough. */
  function Olds(records: seq<PacketInfo>, young: PacketInfo -> bool): (n: nat)
    ensures n <= |records| && (forall i | 0 <= i < n :: !young(records[i])) && (n < |records| ==> young(records[n]))
  {
    if records == [] || young(records[0]) then 0 else 1 + Olds(records[1..], young)
  }

  /** Dropping from the front until a record is young enough. */
  function DropOld(records: seq<PacketInfo>, young: PacketInfo -> bool): seq<PacketInfo>
  {
    records[Olds(records, young)..]
  }

  lemma DropOldIs(records: seq<PacketInfo>, young: PacketInfo -> bool, n: nat)
    requires n <= |records| && (forall i | 0 <= i < n :: !young(records[i]))
    requires n < |records| ==> young(records[n])
    ensures DropOld(records, young) == records[n..]
  {
    hide Olds;
    var m := Olds(records, young);
    assert m < |records| ==> young(records[m]);
    assert n < |records| ==> young(records[n]);
  }

  /** Every record that qualifies is kept, and nothing else. */
  lemma {:induction false} KeptQualify(records: seq<PacketInfo>, young: PacketInfo -> bool)
    ensures forall p | p in Kept(records, young) :: young(p)
  {
    if records != [] {
      KeptQualify(records[..|records| - 1], young);
    }
  }

  /** No old record stands behind a young one. */
  predicate OldFirst(records: seq<PacketInfo>, young: PacketInfo -> bool)
  {
    forall i, j | 0 <= i < j < |records| && young(records[i]) :: young(records[j])
  }

  /** Dropping from the front removes exactly the old records if and only if these all stand in front. */
  lemma DropOldIsKept(records: seq<PacketInfo>, young: PacketInfo -> bool)
    ensures DropOld(records, young) == Kept(records, young) <==> OldFirst(records, young)
  {
    hide Kept, Olds;
    var n := Olds(records, young);
    if OldFirst(records, young) {
      KeptIsSlice(records, young, n, |records|);
    }
    if DropOld(records, young) == Kept(records, young) {
      KeptQualify(records, young);
      forall i, j | 0 <= i < j < |records| && young(records[i]) ensures young(records[j]) {
        assert i >= n;
        assert records[j] == DropOld(records, young)[j - n];
      }
    }
  }

  /** Being young enough depends on the time only, and later records are younger. */
  ghost predicate ByTime(young: PacketInfo -> bool)
  {
    forall p: PacketInfo, q: PacketInfo | p.timer <= q.timer && young(p) :: young(q)
  }

  /** In time order dropping from the front is exact. */
  lemma SortedDropIsExact(records: seq<PacketInfo>, young: PacketInfo -> bool)
    requires Sorted(records) && ByTime(young)
    ensures DropOld(records, young) == Kept(records, young) && Sorted(DropOld(records, young))
  {
    hide Kept, Olds;
    DropOldIsKept(records, young);
  }
}
