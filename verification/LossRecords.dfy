/** FeedbackRecords: recent packet fates, searched by time and tallied per rate. */
module LossRecords {
  import opened Packets
  import opened Reals

  // ---------------------------------------------------------------------------------
  // The search by time
  // ---------------------------------------------------------------------------------

  /** The bisection loop between two indices, stopping at the first record hit that carries time t. */
  function Bisect(records: seq<PacketInfo>, t: int, left: nat, right: nat): (r: nat)
    requires left <= right < |records|
    ensures left <= r <= right
    decreases right - left
  {
    if left == right then right
    else
      var mid := left + (right - left) / 2;
      if records[mid].timer == t then mid
      else if records[mid].timer > t then Bisect(records, t, left, mid)
      else Bisect(records, t, mid + 1, right)
  }

  function Search(records: seq<PacketInfo>, t: int): (r: nat)
    requires records != []
    ensures r <= |records|
  {
    if t > records[|records| - 1].timer then |records|
    else if t < records[0].timer then 0
    else Bisect(records, t, 0, |records| - 1)
  }

  /** The first record whose time is at least t. */
  function First(records: seq<PacketInfo>, t: int): (r: nat)
    ensures r <= |records| && forall i | 0 <= i < r :: records[i].timer < t
    ensures r < |records| ==> records[r].timer >= t
  {
    if records == [] || records[0].timer >= t then 0 else 1 + First(records[1..], t)
  }

  /** No two records carry this time. */
  predicate Single(records: seq<PacketInfo>, t: int)
  {
    forall i, j | 0 <= i < j < |records| :: !(records[i].timer == records[j].timer == t)
  }

  /** Records before r are at most t, records from r on at least t, and r is at t if any record is. */
  ghost predicate Splits(records: seq<PacketInfo>, t: int, r: nat)
  {
    && r <= |records|
    && (forall i | 0 <= i < r :: records[i].timer <= t)
    && (forall i | r <= i < |records| :: records[i].timer >= t)
    && forall i | 0 <= i < |records| && records[i].timer == t :: r < |records| && records[r].timer == t
  }

  lemma {:induction false} BisectSplits(records: seq<PacketInfo>, t: int, left: nat, right: nat)
    requires Sorted(records) && left <= right < |records| && records[right].timer >= t
    requires forall i | 0 <= i < left :: records[i].timer < t
    ensures Splits(records, t, Bisect(records, t, left, right))
    decreases right - left
  {
    hide Splits;
    if left == right {
      SplitsBefore(records, t, right);
    } else {
      var mid := left + (right - left) / 2;
      if records[mid].timer == t {
        SplitsAt(records, t, mid);
      } else if records[mid].timer > t {
        BisectSplits(records, t, left, mid);
      } else {
        BisectSplits(records, t, mid + 1, right);
      }
    }
  }

  lemma SplitsAt(records: seq<PacketInfo>, t: int, r: nat)
    requires Sorted(records) && r < |records| && records[r].timer == t
    ensures Splits(records, t, r)
  {}

  lemma SplitsBefore(records: seq<PacketInfo>, t: int, r: nat)
    requires Sorted(records) && r < |records| && records[r].timer >= t && forall i | 0 <= i < r :: records[i].timer < t
    ensures Splits(records, t, r)
  {}

  lemma SearchSplits(records: seq<PacketInfo>, t: int)
    requires records != [] && Sorted(records)
    ensures Splits(records, t, Search(records, t))
  {
    hide Bisect;
    if records[0].timer <= t <= records[|records| - 1].timer {
      BisectSplits(records, t, 0, |records| - 1);
    }
  }

  /** The search never stops before the first record of time at least t, and any record it passes carries time t. */
  lemma SearchPasses(records: seq<PacketInfo>, t: int)
    requires records != [] && Sorted(records)
    ensures First(records, t) <= Search(records, t)
    ensures forall i | First(records, t) <= i < Search(records, t) :: records[i].timer == t
  {
    hide First, Search;
    SearchSplits(records, t);
    var f, r := First(records, t), Search(records, t);
    assert r < |records| ==> records[r].timer >= t;
  }

  /** It is the least index with time at least t when no two records share that time. */
  lemma SearchIsFirst(records: seq<PacketInfo>, t: int)
    requires records != [] && Sorted(records) && Single(records, t)
    ensures Search(records, t) == First(records, t)
  {
    hide First, Search;
    SearchPasses(records, t);
    SearchSplits(records, t);
    var f, r := First(records, t), Search(records, t);
    assert f < |records| ==> records[f].timer >= t;
    assert r < |records| ==> records[r].timer >= t;
  }

  predicate FirstLarger(records: seq<PacketInfo>, t: int, r: nat)
  {
    && r <= |records|
    && (forall i | 0 <= i < r :: records[i].timer <= t)
    && forall i | r <= i < |records| :: records[i].timer > t
  }

  /** It is the least index with a larger time if and only if no record carries time t. */
  lemma SearchIsFirstLarger(records: seq<PacketInfo>, t: int)
    requires records != [] && Sorted(records)
    ensures FirstLarger(records, t, Search(records, t)) <==> forall i | 0 <= i < |records| :: records[i].timer != t
  {
    hide Search;
    SearchSplits(records, t);
  }

  function At(t: int, status: PacketStatus): PacketInfo { PacketInfo(t, 0, 10, 0, status) }

  /** Three records at time 5: the search for 5 stops at the middle one. */
  lemma SearchSkipsEqualTimes()
    ensures var records := [At(5, Naked), At(5, Acked), At(5, Acked)];
      && Sorted(records) && Search(records, 5) == 1 && First(records, 5) == 0
      && !FirstLarger(records, 5, Search(records, 5))
  {
    var records := [At(5, Naked), At(5, Acked), At(5, Acked)];
    assert Bisect(records, 5, 0, 2) == 1;
    assert records[0].timer == 5;
  }

  /** Sharing a time does not always mislead the search: of two records at time 5 it finds the first. */
  lemma SearchMayHitFirst()
    ensures var records := [At(5, Acked), At(5, Acked)];
      !Single(records, 5) && Search(records, 5) == First(records, 5) == 0
  {
    var records := [At(5, Acked), At(5, Acked)];
    assert records[0].timer == records[1].timer == 5;
  }

  // ---------------------------------------------------------------------------------
  // Counting
  // ---------------------------------------------------------------------------------

  datatype RateInfo = RateInfo(acks: nat, sent: nat) {
    function Plus(other: RateInfo): RateInfo { RateInfo(acks + other.acks, sent + other.sent) }

    /** No information, or the fraction that was not acknowledged. */
    function Loss(): real { if sent == 0 then -1.0 else 1.0 - acks as real / sent as real }
  }

  function Share(p: PacketInfo, rate: nat): RateInfo
  {
    if p.rate != rate then RateInfo(0, 0) else RateInfo(if p.status.Acked? then 1 else 0, 1)
  }

  /** Packets sent at a rate, and those of them that were acknowledged. */
  function Count(records: seq<PacketInfo>, rate: nat): (c: RateInfo)
    ensures c.acks <= c.sent
  {
    if records == [] then RateInfo(0, 0)
    else Count(records[..|records| - 1], rate).Plus(Share(records[|records| - 1], rate))
  }

  lemma LossRange(c: RateInfo)
    requires c.acks <= c.sent
    ensures c.Loss() == -1.0 <==> c.sent == 0
    ensures c.sent > 0 ==> 0.0 <= c.Loss() <= 1.0
    ensures c.sent > 0 ==> (c.Loss() == 0.0 <==> c.acks == c.sent) && (c.Loss() == 1.0 <==> c.acks == 0)
  {
    if c.sent > 0 {
      FractionRange(c.acks as real, c.sent as real);
    }
  }

  lemma PlusNone(c: RateInfo)
    ensures RateInfo(0, 0).Plus(c) == c == c.Plus(RateInfo(0, 0))
  {}

  lemma PlusCommutes(c: RateInfo, d: RateInfo)
    ensures c.Plus(d) == d.Plus(c)
  {}

  lemma PlusAssociates(c: RateInfo, d: RateInfo, e: RateInfo)
    ensures c.Plus(d.Plus(e)) == c.Plus(d).Plus(e)
  {}

  lemma CountLast(records: seq<PacketInfo>, rate: nat)
    requires records != []
    ensures Count(records, rate) == Count(records[..|records| - 1], rate).Plus(Share(records[|records| - 1], rate))
  {}

  lemma CountNone(rate: nat)
    ensures Count([], rate) == RateInfo(0, 0)
  {}

  lemma {:induction false} CountAppend(a: seq<PacketInfo>, b: seq<PacketInfo>, rate: nat)
    ensures Count(a + b, rate) == Count(a, rate).Plus(Count(b, rate))
    decreases |b|
  {
    hide Share, Count, RateInfo.Plus;
    if b == [] {
      assert a + b == a;
      CountNone(rate);
      PlusNone(Count(a, rate));
    } else {
      var init, last := b[..|b| - 1], b[|b| - 1];
      CountAppend(a, init, rate);
      CountLast(b, rate);
      CountLast(a + b, rate);
      assert (a + b)[..|a + b| - 1] == a + init;
      PlusAssociates(Count(a, rate), Count(init, rate), Share(last, rate));
    }
  }

  lemma CountNext(records: seq<PacketInfo>, left: nat, i: nat, rate: nat)
    requires left <= i < |records|
    ensures Count(records[left..i + 1], rate) == Count(records[left..i], rate).Plus(Share(records[i], rate))
  {
    hide Count, Share;
    CountLast(records[left..i + 1], rate);
    assert records[left..i + 1][..i - left] == records[left..i];
  }

  /** What a count over the time interval [start, end) means: no index is involved. */
  function Within(start: int, end: int): PacketInfo -> bool
  {
    (p: PacketInfo) => start <= p.timer < end
  }

  function CountWithin(records: seq<PacketInfo>, start: int, end: int, rate: nat): RateInfo
  {
    Count(Kept(records, Within(start, end)), rate)
  }

  /** The records the code counts: those between the two splits. */
  function Between(records: seq<PacketInfo>, start: int, end: int): seq<PacketInfo>
    requires records != []
  {
    var left, right := Search(records, start), Search(records, end);
    if left <= right then records[left..right] else []
  }

  /** In time order the interval is the slice between the two first indices. */
  lemma WithinIsSlice(records: seq<PacketInfo>, start: int, end: int)
    requires Sorted(records) && start <= end
    ensures First(records, start) <= First(records, end)
    ensures Kept(records, Within(start, end)) == records[First(records, start)..First(records, end)]
  {
    hide First, Kept;
    KeptIsSlice(records, Within(start, end), First(records, start), First(records, end));
  }

  /** Records of the interval outside the stretch counted; and below, records counted that lie outside the interval. */
  function Missed(records: seq<PacketInfo>, start: int, end: int): seq<PacketInfo>
    requires records != []
  {
    var left, right := Search(records, start), Search(records, end);
    if left <= right then Kept(records[..left], Within(start, end)) + Kept(records[right..], Within(start, end))
    else Kept(records, Within(start, end))
  }

  function Stray(records: seq<PacketInfo>, start: int, end: int): seq<PacketInfo>
    requires records != []
  {
    Kept(Between(records, start, end), Outside(start, end))
  }

  function Outside(start: int, end: int): PacketInfo -> bool
  {
    (p: PacketInfo) => !(start <= p.timer < end)
  }

  /** Counting what is inside and what is outside counts everything. */
  lemma {:induction false} CountParts(records: seq<PacketInfo>, start: int, end: int, rate: nat)
    ensures Count(records, rate) == Count(Kept(records, Within(start, end)), rate).Plus(
                                    Count(Kept(records, Outside(start, end)), rate))
    decreases |records|
  {
    hide Count, Kept, Share, RateInfo.Plus;
    var inside, outside := Within(start, end), Outside(start, end);
    KeptNone(inside);
    KeptNone(outside);
    CountNone(rate);
    if records == [] {
      PlusNone(RateInfo(0, 0));
    } else {
      var m := |records| - 1;
      var init, last := records[..m], records[m];
      CountParts(init, start, end, rate);
      CountLast(records, rate);
      KeptLast(records, inside);
      KeptLast(records, outside);
      CountOneMore(Kept(init, inside), last, rate);
      CountOneMore(Kept(init, outside), last, rate);
      var c, d, e := Count(Kept(init, inside), rate), Count(Kept(init, outside), rate), Share(last, rate);
      PlusAssociates(c, d, e);
      PlusCommutes(d, e);
      PlusAssociates(c, e, d);
    }
  }

  lemma CountOneMore(records: seq<PacketInfo>, p: PacketInfo, rate: nat)
    ensures Count(records + [p], rate) == Count(records, rate).Plus(Share(p, rate))
  {
    hide Count, Share, RateInfo.Plus;
    CountLast(records + [p], rate);
    assert (records + [p])[..|records|] == records;
  }

  /**
   On every list, in whatever order, the count made and the count over [start, end) balance once
   the records missed and the strays are added.
  */
  lemma CountsConserved(records: seq<PacketInfo>, start: int, end: int, rate: nat)
    requires records != []
    ensures Count(Between(records, start, end), rate).Plus(Count(Missed(records, start, end), rate))
         == CountWithin(records, start, end, rate).Plus(Count(Stray(records, start, end), rate))
  {
    hide Search, Count, Kept, RateInfo.Plus;
    var left, right := Search(records, start), Search(records, end);
    if left <= right {
      CountAround(records, left, right, start, end, rate);
    } else {
      KeptNone(Outside(start, end));
      PlusCommutes(Count([], rate), CountWithin(records, start, end, rate));
    }
  }

  lemma CountAround(records: seq<PacketInfo>, left: nat, right: nat, start: int, end: int, rate: nat)
    requires left <= right <= |records|
    ensures var inside, mid := Within(start, end), records[left..right];
      Count(mid, rate).Plus(Count(Kept(records[..left], inside) + Kept(records[right..], inside), rate))
      == CountWithin(records, start, end, rate).Plus(Count(Kept(mid, Outside(start, end)), rate))
  {
    hide Count, Kept, RateInfo.Plus;
    var inside, mid := Within(start, end), records[left..right];
    var pre, post := Kept(records[..left], inside), Kept(records[right..], inside);
    assert records == records[..left] + mid + records[right..];
    KeptAppend(records[..left] + mid, records[right..], inside);
    KeptAppend(records[..left], mid, inside);
    CountAppend(pre + Kept(mid, inside), post, rate);
    CountAppend(pre, Kept(mid, inside), rate);
    CountAppend(pre, post, rate);
    CountParts(mid, start, end, rate);
    Regroup(Count(pre, rate), Count(Kept(mid, inside), rate), Count(post, rate),
            Count(Kept(mid, Outside(start, end)), rate));
  }

  lemma Regroup(a: RateInfo, b: RateInfo, c: RateInfo, d: RateInfo)
    ensures b.Plus(d).Plus(a.Plus(c)) == a.Plus(b).Plus(c).Plus(d)
  {}

  /** So the count is right if and only if what was missed counts as much as the strays. */
  lemma CountsRight(records: seq<PacketInfo>, start: int, end: int, rate: nat)
    requires records != []
    ensures Count(Between(records, start, end), rate) == CountWithin(records, start, end, rate)
        <==> Count(Missed(records, start, end), rate) == Count(Stray(records, start, end), rate)
  {
    hide Count, Between, Missed, Stray, CountWithin;
    CountsConserved(records, start, end, rate);
  }

  /** Times below t stand before n and times above t from n on; within the two parts any order will do. */
  predicate Cut(records: seq<PacketInfo>, t: int, n: nat)
  {
    && n <= |records|
    && (forall i | 0 <= i < n :: records[i].timer < t)
    && forall i | n <= i < |records| :: records[i].timer > t
  }

  lemma {:induction false} BisectAtCut(records: seq<PacketInfo>, t: int, left: nat, right: nat, n: nat)
    requires Cut(records, t, n) && left <= n <= right < |records|
    ensures Bisect(records, t, left, right) == n
    decreases right - left
  {
    if left < right {
      var mid := left + (right - left) / 2;
      if records[mid].timer > t {
        BisectAtCut(records, t, left, mid, n);
      } else {
        BisectAtCut(records, t, mid + 1, right, n);
      }
    }
  }

  /** The search finds a cut wherever there is one. */
  lemma SearchAtCut(records: seq<PacketInfo>, t: int, n: nat)
    requires records != [] && Cut(records, t, n)
    ensures Search(records, t) == n
  {
    hide Bisect;
    if records[0].timer <= t <= records[|records| - 1].timer {
      BisectAtCut(records, t, 0, |records| - 1, n);
    }
  }

  lemma CutsInOrder(records: seq<PacketInfo>, start: int, end: int, left: nat, right: nat)
    requires start <= end && Cut(records, start, left) && Cut(records, end, right)
    ensures left <= right
  {
    if right < |records| {
      assert records[right].timer > end;
    }
  }

  /** Cuts at both ends suffice for a right count, whatever the order. */
  lemma CountsRightAtCuts(records: seq<PacketInfo>, start: int, end: int, left: nat, right: nat, rate: nat)
    requires records != [] && start <= end && Cut(records, start, left) && Cut(records, end, right)
    ensures left <= right && Between(records, start, end) == records[left..right]
    ensures Count(Between(records, start, end), rate) == CountWithin(records, start, end, rate)
  {
    hide Search, Count, Kept;
    SearchAtCut(records, start, left);
    SearchAtCut(records, end, right);
    CutsInOrder(records, start, end, left, right);
    KeptIsSlice(records, Within(start, end), left, right);
  }

  /** In time order every time that no record carries is a cut, so a lookup between the records is right. */
  lemma SortedCuts(records: seq<PacketInfo>, t: int)
    requires records != [] && Sorted(records) && forall i | 0 <= i < |records| :: records[i].timer != t
    ensures Cut(records, t, Search(records, t))
  {
    hide Search;
    SearchSplits(records, t);
  }

  // ---------------------------------------------------------------------------------
  // Lists in time order
  // ---------------------------------------------------------------------------------

  /** Records at exactly time t that the search passed over. */
  function PassedOver(records: seq<PacketInfo>, t: int): seq<PacketInfo>
    requires records != []
  {
    if First(records, t) <= Search(records, t) then records[First(records, t)..Search(records, t)] else []
  }

  /** In time order exactly the records passed over at the start are missed, and those at the end are strays. */
  lemma SortedMissed(records: seq<PacketInfo>, start: int, end: int)
    requires records != [] && Sorted(records) && start < end
    ensures Missed(records, start, end) == PassedOver(records, start)
    ensures Stray(records, start, end) == PassedOver(records, end)
    ensures forall p | p in PassedOver(records, start) :: p.timer == start
    ensures forall p | p in PassedOver(records, end) :: p.timer == end
  {
    hide First, Search, Kept;
    SearchPasses(records, start);
    SearchPasses(records, end);
    SplitsInOrder(records, start, end);
    SearchSplits(records, end);
    var a, l, c, r := First(records, start), Search(records, start), First(records, end), Search(records, end);
    KeptPart(records, Within(start, end), 0, l, a, l);
    KeptPart(records, Within(start, end), r, |records|, r, r);
    assert records[0..l] == records[..l] && records[r..|records|] == records[r..];
    FirstBeyond(records, start, end);
    KeptPart(records, Outside(start, end), l, r, c, r);
  }

  /** The search for the start stops before any record of the end time. */
  lemma FirstBeyond(records: seq<PacketInfo>, start: int, end: int)
    requires records != [] && Sorted(records) && start < end
    ensures Search(records, start) <= First(records, end)
  {
    hide First, Search;
    SearchPasses(records, start);
    var l, c := Search(records, start), First(records, end);
    if c < |records| {
      assert records[c].timer >= end;
    }
  }

  /** KeptIsSlice for a stretch of the list. */
  lemma KeptPart(records: seq<PacketInfo>, young: PacketInfo -> bool, lo: nat, hi: nat, from: nat, to: nat)
    requires lo <= from <= to <= hi <= |records|
    requires forall i | lo <= i < hi :: young(records[i]) <==> from <= i < to
    ensures Kept(records[lo..hi], young) == records[from..to]
  {
    hide Kept;
    var part := records[lo..hi];
    KeptIsSlice(part, young, from - lo, to - lo);
    SliceOfSlice(records, lo, hi, from, to);
  }

  lemma SliceOfSlice(records: seq<PacketInfo>, lo: nat, hi: nat, from: nat, to: nat)
    requires lo <= from <= to <= hi <= |records|
    ensures records[lo..hi][from - lo..to - lo] == records[from..to]
  {
    var part := records[lo..hi];
    assert part == records[lo..from] + records[from..to] + records[to..hi];
  }

  lemma SplitsInOrder(records: seq<PacketInfo>, start: int, end: int)
    requires records != [] && Sorted(records) && start <= end
    ensures Search(records, start) <= Search(records, end)
  {
    hide Search;
    SearchSplits(records, start);
    SearchSplits(records, end);
    var l, r := Search(records, start), Search(records, end);
    assert r < |records| ==> records[r].timer >= end;
  }

  /** So the count is right when no two records share the start time or the end time. */
  lemma CountsRightIfSingle(records: seq<PacketInfo>, start: int, end: int, rate: nat)
    requires records != [] && Sorted(records) && start <= end && Single(records, start) && Single(records, end)
    ensures Count(Between(records, start, end), rate) == CountWithin(records, start, end, rate)
  {
    hide First, Search, Count, Kept, Single;
    SearchIsFirst(records, start);
    SearchIsFirst(records, end);
    WithinIsSlice(records, start, end);
  }

  /** Outside the times recorded nothing is counted. */
  lemma NothingWithin(records: seq<PacketInfo>, start: int, end: int, rate: nat)
    requires Sorted(records) && start <= end
    requires records == [] || end < records[0].timer || start > records[|records| - 1].timer
    ensures CountWithin(records, start, end, rate) == RateInfo(0, 0)
  {
    hide Kept;
    KeptIsSlice(records, Within(start, end), 0, 0);
  }

  /** Three records at time 5, one of them lost: over [5, 6) the code counts two and reports no loss. */
  lemma LossMiscounted()
    ensures var records := [At(5, Naked), At(5, Acked), At(5, Acked)];
      && Sorted(records) && Count(Between(records, 5, 6), 10) == RateInfo(2, 2)
      && CountWithin(records, 5, 6, 10) == RateInfo(2, 3)
    ensures RateInfo(2, 2).Loss() == 0.0 && RateInfo(2, 3).Loss() == 1.0 / 3.0
  {
    hide Kept, Count, Search;
    var x, y := At(5, Naked), At(5, Acked);
    var records := [x, y, y];
    SearchSkipsEqualTimes();
    PastTheEnd(records, 6);
    assert Between(records, 5, 6) == [y, y];
    CountPair(y, y);
    KeptIsSlice(records, Within(5, 6), 0, 3);
    assert records[0..3] == [x] + [y, y];
    CountAppend([x], [y, y], 10);
    CountOne(x);
  }

  /**
   A list out of time order: the report of packets 1 and 2, packet 7, and the same report again.
   The search for 3 finds the end of the list, so packet 7 is counted as one sent before time 3.
  */
  lemma {:induction false} RepeatedReportMiscounted()
    ensures var one, two, seven := At(1, Naked), At(2, Naked), At(7, Acked);
      var records := [one, two, seven, one, two];
      && Stray(records, 0, 3) == [seven] && Missed(records, 0, 3) == []
      && Count(Between(records, 0, 3), 10) == RateInfo(1, 5) && CountWithin(records, 0, 3, 10) == RateInfo(0, 4)
    ensures RateInfo(1, 5).Loss() == 4.0 / 5.0 && RateInfo(0, 4).Loss() == 1.0
  {
    var one, two, seven := At(1, Naked), At(2, Naked), At(7, Acked);
    var twice, records := [one, two], [one, two, seven, one, two];
    assert records == twice + [seven] + twice;
    hide Kept, Count, Search, Between, Missed, Stray, Share, RateInfo.Plus, RateInfo.Loss;
    StrayInBetween(records, twice, seven);
    ExampleCounts();
    ExampleSums();
    ExampleLosses();
    CountTwice(twice, [seven], 10);
  }

  /** Everything is counted, although what stands in the middle is later than the end of the interval. */
  lemma {:induction false} StrayInBetween(records: seq<PacketInfo>, twice: seq<PacketInfo>, late: PacketInfo)
    requires records == twice + [late] + twice && twice != [] && late.timer >= 3
    requires forall p | p in twice :: 0 < p.timer < 3
    ensures Search(records, 0) == 0 && Search(records, 3) == |records| && Between(records, 0, 3) == records
    ensures Kept(records, Within(0, 3)) == twice + twice
    ensures Missed(records, 0, 3) == [] && Stray(records, 0, 3) == [late]
  {
    hide Kept, Search;
    BeforeTheStart(records, 0);
    PastTheEnd(records, 3);
    assert records[0..|records|] == records && records[..0] == [] && records[|records|..] == [];
    KeptNone(Within(0, 3));
    KeptThree(twice, [late], twice, Within(0, 3), true, false, true);
    KeptThree(twice, [late], twice, Outside(0, 3), false, true, false);
    assert twice + [] + twice == twice + twice && [] + [late] + [] == [late];
  }

  lemma {:induction false} CountTwice(twice: seq<PacketInfo>, once: seq<PacketInfo>, rate: nat)
    ensures var c, d := Count(twice, rate), Count(once, rate);
      Count(twice + once + twice, rate) == c.Plus(d).Plus(c) && Count(twice + twice, rate) == c.Plus(c)
  {
    hide *;
    CountAppend(twice, once, rate);
    CountAppend(twice + once, twice, rate);
    CountAppend(twice, twice, rate);
  }

  /** What the packets of the example add up to. */
  lemma ExampleCounts()
    ensures Count([At(1, Naked), At(2, Naked)], 10) == RateInfo(0, 2) && Count([At(7, Acked)], 10) == RateInfo(1, 1)
  {
    hide Count, RateInfo.Loss;
    CountPair(At(1, Naked), At(2, Naked));
    CountOne(At(7, Acked));
  }

  lemma ExampleSums()
    ensures var c, d := RateInfo(0, 2), RateInfo(1, 1);
      c.Plus(d).Plus(c) == RateInfo(1, 5) && c.Plus(c) == RateInfo(0, 4)
  {
    hide RateInfo.Plus;
    PlusIs(0, 2, 1, 1);
    PlusIs(1, 3, 0, 2);
    PlusIs(0, 2, 0, 2);
  }

  lemma PlusIs(a: nat, b: nat, c: nat, d: nat)
    ensures RateInfo(a, b).Plus(RateInfo(c, d)) == RateInfo(a + c, b + d)
  {}

  lemma ExampleLosses()
    ensures RateInfo(1, 5).Loss() == 4.0 / 5.0 && RateInfo(0, 4).Loss() == 1.0
  {}

  lemma BeforeTheStart(records: seq<PacketInfo>, t: int)
    requires records != [] && t < records[0].timer && t <= records[|records| - 1].timer
    ensures Search(records, t) == 0
  {}

  /** Three stretches, each kept or dropped as a whole. */
  lemma KeptThree(a: seq<PacketInfo>, b: seq<PacketInfo>, c: seq<PacketInfo>, young: PacketInfo -> bool,
                  inA: bool, inB: bool, inC: bool)
    requires forall i | 0 <= i < |a| :: young(a[i]) == inA
    requires forall i | 0 <= i < |b| :: young(b[i]) == inB
    requires forall i | 0 <= i < |c| :: young(c[i]) == inC
    ensures Kept(a + b + c, young) ==
      (if inA then a else []) + (if inB then b else []) + if inC then c else []
  {
    hide Kept;
    KeptAppend(a + b, c, young);
    KeptAppend(a, b, young);
    KeptIsSlice(a, young, 0, if inA then |a| else 0);
    KeptIsSlice(b, young, 0, if inB then |b| else 0);
    KeptIsSlice(c, young, 0, if inC then |c| else 0);
    assert a[0..|a|] == a && b[0..|b|] == b && c[0..|c|] == c;
    assert a[0..0] == [] && b[0..0] == [] && c[0..0] == [];
  }

  lemma PastTheEnd(records: seq<PacketInfo>, t: int)
    requires records != [] && t > records[|records| - 1].timer
    ensures Search(records, t) == |records|
  {}

  lemma CountOne(p: PacketInfo)
    ensures Count([p], 10) == Share(p, 10)
  {
    hide Count, Share;
    var one := [p];
    assert one[..|one| - 1] == [];
    CountLast(one, 10);
    CountNone(10);
    PlusNone(Share(p, 10));
  }

  lemma CountPair(p: PacketInfo, q: PacketInfo)
    ensures Count([p, q], 10) == Share(p, 10).Plus(Share(q, 10))
  {
    hide Count;
    CountLast([p, q], 10);
    CountOne(p);
    assert [p, q][..1] == [p];
  }

  // ---------------------------------------------------------------------------------
  // The class
  // ---------------------------------------------------------------------------------

  function Young(duration: nat, now: int): PacketInfo -> bool
  {
    (p: PacketInfo) => p.timer + duration >= now
  }

  /** With times that never decrease, exactly the records of the last `duration` remain. */
  lemma InOrderIsExact(records: seq<PacketInfo>, duration: nat, now: int)
    requires Sorted(records)
    ensures DropOld(records, Young(duration, now)) == Kept(records, Young(duration, now))
  {
    hide Sorted;
    SortedDropIsExact(records, Young(duration, now));
  }

  /** A record inserted at its own time. */
  function Inserted(records: seq<PacketInfo>, p: PacketInfo, duration: nat): seq<PacketInfo>
  {
    DropOld(records + [p], Young(duration, p.timer))
  }

  lemma InsertKeepsAll(records: seq<PacketInfo>, p: PacketInfo, duration: nat)
    requires (records + [p])[0].timer + duration >= p.timer
    ensures Inserted(records, p, duration) == records + [p]
  {
    DropOldIs(records + [p], Young(duration, p.timer), 0);
  }

  /** A report inserted again after a later packet: the list of the miscounted lookup. */
  lemma RepeatedReportBuilds(duration: nat)
    requires duration >= 6
    ensures var one, two, seven := At(1, Naked), At(2, Naked), At(7, Acked);
      var first := Inserted(Inserted([], one, duration), two, duration);
      Inserted(Inserted(Inserted(first, seven, duration), one, duration), two, duration) == [one, two, seven, one, two]
  {
    hide Inserted;
    var one, two, seven := At(1, Naked), At(2, Naked), At(7, Acked);
    assert [] + [one] == [one] && [one] + [two] == [one, two] && [one, two] + [seven] == [one, two, seven];
    assert [one, two, seven] + [one] == [one, two, seven, one];
    assert [one, two, seven, one] + [two] == [one, two, seven, one, two];
    InsertKeepsAll([], one, duration);
    InsertKeepsAll([one], two, duration);
    InsertKeepsAll([one, two], seven, duration);
    InsertKeepsAll([one, two, seven], one, duration);
    InsertKeepsAll([one, two, seven, one], two, duration);
  }

  function Entry(table: map<nat, RateInfo>, rate: nat): RateInfo
  {
    if rate in table then table[rate] else RateInfo(0, 0)
  }

  /** The table after one more record. */
  function Tallied(table: map<nat, RateInfo>, p: PacketInfo): map<nat, RateInfo>
  {
    table[p.rate := Entry(table, p.rate).Plus(Share(p, p.rate))]
  }

  /** Looking the rate up first makes no difference. */
  lemma LookedUp(table: map<nat, RateInfo>, p: PacketInfo)
    ensures table[p.rate := Entry(table, p.rate)][p.rate := Entry(table, p.rate).Plus(Share(p, p.rate))] ==
        Tallied(table, p)
  {
    hide RateInfo.Plus, Share, Entry;
  }

  lemma PlusShare(c: RateInfo, p: PacketInfo)
    ensures c.Plus(Share(p, p.rate)) == RateInfo(if p.status.Acked? then c.acks + 1 else c.acks, c.sent + 1)
  {}

  lemma EntryPlus(table: map<nat, RateInfo>, p: PacketInfo, rate: nat)
    ensures Entry(Tallied(table, p), rate) == Entry(table, rate).Plus(Share(p, rate))
  {
    hide RateInfo.Plus;
    PlusNone(Entry(table, rate));
  }

  lemma EntryOfZeros(table: map<nat, RateInfo>)
    requires forall rate | rate in table :: table[rate] == RateInfo(0, 0)
    ensures forall rate :: Entry(table, rate) == RateInfo(0, 0)
  {}

  const MIN_SENT_CNT: nat := 2

  predicate Promising(info: RateInfo) { info.acks > 0 || info.sent < MIN_SENT_CNT }

  predicate Rising(rates: seq<nat>) { forall i, j | 0 <= i < j < |rates| :: rates[i] < rates[j] }

  lemma {:induction false} Smallest(keys: set<nat>, k: nat)
    requires k in keys
    ensures exists rate :: rate in keys && forall q | q in keys :: rate <= q
    decreases k
  {
    if q :| q in keys && q < k {
      Smallest(keys, q);
    }
  }

  method LeastKey(keys: set<nat>) returns (rate: nat)
    requires keys != {}
    ensures rate in keys && forall q | q in keys :: rate <= q
  {
    ghost var k :| k in keys;
    Smallest(keys, k);
    rate :| rate in keys && forall q | q in keys :: rate <= q;
  }

  /** The promising ones among the keys seen so far. */
  ghost predicate Scanned(table: map<nat, RateInfo>, seen: set<nat>, rates: seq<nat>)
  {
    seen <= table.Keys && Rising(rates) && forall r: nat :: r in rates <==> r in seen && Promising(table[r])
  }

  lemma ScannedNone(table: map<nat, RateInfo>)
    ensures Scanned(table, {}, [])
  {}

  lemma ScannedNext(table: map<nat, RateInfo>, seen: set<nat>, rates: seq<nat>, rate: nat)
    requires Scanned(table, seen, rates) && rate in table && forall r | r in seen :: r < rate
    ensures Scanned(table, seen + {rate}, if Promising(table[rate]) then rates + [rate] else rates)
  {
    hide Promising;
    assert forall i | 0 <= i < |rates| :: rates[i] in rates;
  }

  /** The keys fall into those seen and the larger ones still to come. */
  ghost predicate Split(all: set<nat>, seen: set<nat>, keys: set<nat>)
  {
    all == seen + keys && forall r, q | r in seen && q in keys :: r < q
  }

  lemma SplitNext(all: set<nat>, seen: set<nat>, keys: set<nat>, rate: nat)
    requires Split(all, seen, keys) && rate in keys && forall q | q in keys :: rate <= q
    ensures Split(all, seen + {rate}, keys - {rate}) && rate in all && forall r | r in seen :: r < rate
  {}

  /** Going through the table in the order of its keys. */
  method PromisingRates(table: map<nat, RateInfo>) returns (rates: seq<nat>)
    ensures Rising(rates) && forall r: nat :: r in rates <==> r in table && Promising(table[r])
  {
    hide Promising, Scanned, Split;
    rates := [];
    ghost var seen: set<nat> := {};
    var keys := table.Keys;
    ScannedNone(table);
    AllToCome(keys);
    while keys != {}
      invariant Split(table.Keys, seen, keys) && Scanned(table, seen, rates)
      decreases |keys|
    {
      var rate := LeastKey(keys);
      SplitNext(table.Keys, seen, keys, rate);
      ScannedNext(table, seen, rates, rate);
      if Promising(table[rate]) {
        rates := rates + [rate];
      }
      keys := keys - {rate};
      seen := seen + {rate};
    }
    NoneToCome(table.Keys, seen);
    ScannedAll(table, seen, rates);
  }

  lemma AllToCome(all: set<nat>)
    ensures Split(all, {}, all)
  {}

  lemma NoneToCome(all: set<nat>, seen: set<nat>)
    requires Split(all, seen, {})
    ensures seen == all
  {}

  lemma ScannedAll(table: map<nat, RateInfo>, seen: set<nat>, rates: seq<nat>)
    requires Scanned(table, seen, rates) && seen == table.Keys
    ensures Rising(rates) && forall r: nat :: r in rates <==> r in table && Promising(table[r])
  {}

  lemma BetweenIs(records: seq<PacketInfo>, start: int, end: int)
    requires records != []
    ensures var left, right := Search(records, start), Search(records, end);
      Between(records, start, end) == if left <= right then records[left..right] else []
  {}

  class FeedbackRecords {
    var duration: nat
    var records: seq<PacketInfo>
    var rateTable: map<nat, RateInfo>

    constructor (rates: seq<nat>, duration: nat)
      ensures this.duration == duration && records == []
      ensures rateTable == map rate | rate in rates :: RateInfo(0, 0)
    {
      this.duration, records := duration, [];
      rateTable := map rate | rate in rates :: RateInfo(0, 0);
    }

    /** Records leave from the front until one of the last `duration` stands there; the new one always stays. */
    method InsertPacket(seqNum: nat, status: PacketStatus, rate: nat, now: int) returns (removed: bool)
      requires status in {Acked, Naked, TimedOut}
      modifies this`records
      ensures records == Inserted(old(records), PacketInfo(now, seqNum, rate, 0, status), duration)
      ensures records != [] && records[|records| - 1] == PacketInfo(now, seqNum, rate, 0, status)
      ensures removed <==> |records| < |old(records)| + 1
    {
      hide DropOld;
      var pkt := PacketInfo(now, seqNum, rate, 0, status);
      ghost var all := records + [pkt];
      records := records + [pkt];
      removed := false;
      ghost var n := 0;
      while records != []
        invariant n < |all| && records == all[n..] && (removed <==> n > 0)
        invariant forall i | 0 <= i < n :: !Young(duration, now)(all[i])
        decreases |records|
      {
        if records[0].timer + duration >= now {
          break;
        }
        assert n < |all| - 1;  // the newest record is never too old
        records := records[1..];
        removed := true;
        n := n + 1;
      }
      DropOldIs(all, Young(duration, now), n);
    }

    /** The index found by bisection. */
    method BinarySearchRecords(t: int) returns (r: nat)
      requires records != []
      ensures r == Search(records, t)
    {
      if t > records[|records| - 1].timer {
        return |records|;
      }
      if t < records[0].timer {
        return 0;
      }
      var left, right := 0, |records| - 1;
      while left < right
        invariant 0 <= left <= right < |records|
        invariant Bisect(records, t, left, right) == Bisect(records, t, 0, |records| - 1)
      {
        var mid := left + (right - left) / 2;
        if records[mid].timer == t {
          return mid;
        } else if records[mid].timer > t {
          right := mid;
        } else {
          left := mid + 1;
        }
      }
      r := right;
    }

    method ResetRateTable()
      modifies this`rateTable
      ensures rateTable.Keys == old(rateTable).Keys
      ensures forall rate | rate in rateTable :: rateTable[rate] == RateInfo(0, 0)
    {
      rateTable := map rate | rate in rateTable :: RateInfo(0, 0);
    }

    /** The entry of a rate; a missing one is created with zero counts. */
    method Lookup(rate: nat) returns (info: RateInfo)
      modifies this`rateTable
      ensures info == Entry(old(rateTable), rate) && rateTable == old(rateTable)[rate := info]
    {
      info := if rate in rateTable then rateTable[rate] else RateInfo(0, 0);
      rateTable := rateTable[rate := info];
    }

    /** Tallies the records between two indices; none when they are out of order. */
    method Tally(left: nat, right: nat)
      requires left <= |records| && right <= |records|
      modifies this`rateTable
      ensures forall rate :: Entry(rateTable, rate) == Count(if left <= right then records[left..right] else [], rate)
      ensures old(rateTable).Keys <= rateTable.Keys
    {
      hide Count, Entry, Tallied, RateInfo.Plus;
      ResetRateTable();
      EntryOfZeros(rateTable);
      forall rate: nat ensures Entry(rateTable, rate) == Count([], rate) { CountNone(rate); }
      assert records[left..left] == [];
      if left > right {
        return;
      }
      for i := left to right
        invariant old(rateTable).Keys <= rateTable.Keys
        invariant forall rate :: Entry(rateTable, rate) == Count(records[left..i], rate)
        modifies this`rateTable
      {
        var p := records[i];
        ghost var before := rateTable;
        var info := Lookup(p.rate);
        PlusShare(info, p);
        rateTable := rateTable[p.rate := RateInfo(if p.status.Acked? then info.acks + 1 else info.acks, info.sent + 1)];
        LookedUp(before, p);
        forall rate: nat ensures Entry(rateTable, rate) == Count(records[left..i + 1], rate) {
          CountNext(records, left, i, rate);
          assert Entry(before, rate) == Count(records[left..i], rate);
          EntryPlus(before, p, rate);
        }
      }
    }

    /**
     The loss rate of each requested rate, as counted from scratch over the records between the
     two splits; false, and nothing changed, when the interval misses all records.
    */
    method CalcLossRates(start: int, end: int, rates: seq<nat>, lossRate0: seq<real>)
      returns (ok: bool, lossRate: seq<real>)
      requires start <= end
      modifies this`rateTable
      ensures ok <==> records != [] && records[0].timer <= end && start <= records[|records| - 1].timer
      ensures !ok ==> lossRate == lossRate0 && rateTable == old(rateTable)
      ensures ok ==> |lossRate| == |rates| && forall i | 0 <= i < |rates| ::
                lossRate[i] == Count(Between(records, start, end), rates[i]).Loss()
                && (lossRate[i] == -1.0 || 0.0 <= lossRate[i] <= 1.0)
    {
      hide Count, Search;
      lossRate := lossRate0;
      if |records| == 0 || end < records[0].timer || start > records[|records| - 1].timer {
        return false, lossRate;
      }
      var left := BinarySearchRecords(start);
      var right := BinarySearchRecords(end);
      Tally(left, right);
      ghost var counted := Between(records, start, end);
      lossRate := [];
      for i := 0 to |rates|
        invariant |lossRate| == i && forall rate :: Entry(rateTable, rate) == Count(counted, rate)
        invariant forall j | 0 <= j < i ::
          lossRate[j] == Count(counted, rates[j]).Loss() && (lossRate[j] == -1.0 || 0.0 <= lossRate[j] <= 1.0)
        modifies this`rateTable
      {
        var info := Lookup(rates[i]);
        LossRange(info);
        lossRate := lossRate + [info.Loss()];
      }
      ok := true;
    }

    /** One rate only; -1 when there is nothing to go by. */
    method CalcLossRate(start: int, end: int, rate: nat) returns (lossRate: real)
      requires start <= end
      modifies this`rateTable
      ensures records == [] || end < records[0].timer || start > records[|records| - 1].timer ==> lossRate == -1.0
      ensures records != [] && records[0].timer <= end && start <= records[|records| - 1].timer ==>
                lossRate == Count(Between(records, start, end), rate).Loss()
    {
      var ok, lossRates := CalcLossRates(start, end, [rate], []);
      if ok {
        lossRate := lossRates[0];
      } else {
        lossRate := -1.0;
      }
    }

    /**
     The rates worth trying: those with an ack in the interval, and those tried less than twice.
     The table of an earlier call is used again when it is still good.
    */
    method FindSuccessRates(start: int, end: int, isLossAvailable: bool) returns (ok: bool, rates: seq<nat>)
      requires start <= end
      modifies this`rateTable
      ensures ok <==> records != [] && records[0].timer <= end && start <= records[|records| - 1].timer
      ensures !ok || isLossAvailable ==> rateTable == old(rateTable)
      ensures !ok ==> rates == []
      ensures ok ==> Rising(rates)
      ensures ok && isLossAvailable ==>
                forall r: nat :: r in rates <==> r in rateTable && (rateTable[r].acks > 0 || rateTable[r].sent < 2)
      ensures ok && !isLossAvailable ==> forall r: nat :: r in rates <==>
                r in rateTable && Promising(Count(Between(records, start, end), r))
    {
      hide Count, Search, Between;
      rates := [];
      if |records| == 0 || end < records[0].timer || start > records[|records| - 1].timer {
        return false, [];
      }
      ok := true;
      if !isLossAvailable {
        var left := BinarySearchRecords(start);
        var right := BinarySearchRecords(end);
        Tally(left, right);
        BetweenIs(records, start, end);
      }
      rates := PromisingRates(rateTable);
      if !isLossAvailable {
        forall r: nat ensures r in rates <==> r in rateTable && Promising(Count(Between(records, start, end), r)) {
          assert Entry(rateTable, r) == Count(Between(records, start, end), r);
        }
      }
    }
  }
}
