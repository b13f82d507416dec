/** ScoutRateAdaptation: the rate, the redundancy and the list of rates for each batch. */
module ScoutRate {
  import opened Packets
  import opened Reals
  import opened Redundancy

  const NUM_SAMPLE_RATES: nat := 1
  const SAMPLE_BOUND: nat := 2

  datatype Version =
    | SampleRate | Rraa | Fixed | BatchSeq | BatchRandom
    | ScoutSeq | ScoutRandom | ScoutBoundLossSeq | ScoutBoundLossRandom

  datatype TransmitMode = Data | TimeOut | Retrans

  predicate Baseline(v: Version) { v.SampleRate? || v.Rraa? }

  predicate Sequential(v: Version) { v.BatchSeq? || v.ScoutSeq? || v.ScoutBoundLossSeq? }

  predicate Sampling(v: Version) { !Baseline(v) && !v.Fixed? }

  // ---------------------------------------------------------------------------------
  // Loss maps
  // ---------------------------------------------------------------------------------

  ghost predicate LossMap(losses: map<nat, real>)
  {
    forall rate | rate in RATES :: rate in losses && IsLoss(losses[rate])
  }

  /** UpdateLoss: a moving average when both losses are known; without a weight the new value replaces the old. */
  function Updated(prev: real, loss: real, weight: real): real
  {
    if weight > 0.0 && loss != UNKNOWN && prev != UNKNOWN then prev * weight + loss * (1.0 - weight)
    else if weight <= 0.0 || prev == UNKNOWN then loss
    else prev
  }

  function Least(a: real, b: real): real { if a < b then a else b }

  function Most(a: real, b: real): real { if a < b then b else a }

  /** An update stays a loss rate between the two it combines, and with a weight never forgets a known one. */
  lemma UpdatedIsLoss(prev: real, loss: real, weight: real)
    requires IsLoss(prev) && IsLoss(loss) && weight <= 1.0
    ensures IsLoss(Updated(prev, loss, weight))
    ensures weight > 0.0 && prev != UNKNOWN ==> Updated(prev, loss, weight) != UNKNOWN
    ensures weight > 0.0 && prev != UNKNOWN && loss != UNKNOWN ==>
              Least(prev, loss) <= Updated(prev, loss, weight) <= Most(prev, loss)
  {
    hide Times;
    if weight > 0.0 && loss != UNKNOWN && prev != UNKNOWN {
      var v := 1.0 - weight;
      var lo, hi := Least(prev, loss), Most(prev, loss);
      TimesIs(prev, weight);
      TimesIs(loss, v);
      TimesAtMost(lo, prev, weight);
      TimesAtMost(lo, loss, v);
      TimesAtMost(prev, hi, weight);
      TimesAtMost(loss, hi, v);
      Shares(lo, weight);
      Shares(hi, weight);
    }
  }

  /** Without a weight the new value; with one the mean of two known values, or the known one of them. */
  lemma UpdatedValues(prev: real, loss: real, weight: real)
    ensures weight <= 0.0 ==> Updated(prev, loss, weight) == loss
    ensures weight > 0.0 && prev != UNKNOWN && loss != UNKNOWN ==>
              Updated(prev, loss, weight) - loss == weight * (prev - loss)
    ensures weight > 0.0 && prev == UNKNOWN ==> Updated(prev, loss, weight) == loss
    ensures weight > 0.0 && loss == UNKNOWN ==> Updated(prev, loss, weight) == prev
  {}

  lemma Shares(x: real, weight: real)
    ensures Times(x, weight) + Times(x, 1.0 - weight) == x
  {}

  /** CalcLossRatesFrontBack: both antennas must lose a packet for it to be lost. */
  function FrontBack(front: real, back: real): real
  {
    if front == UNKNOWN || back == UNKNOWN then Most(front, back)
    else if front == 0.0 || back == 0.0 then Most(front, back) / 2.0
    else front * back
  }

  lemma FrontBackIsLoss(front: real, back: real)
    requires IsLoss(front) && IsLoss(back)
    ensures IsLoss(FrontBack(front, back)) && FrontBack(front, back) == FrontBack(back, front)
    ensures FrontBack(front, back) == UNKNOWN <==> front == UNKNOWN && back == UNKNOWN
    ensures FrontBack(front, back) <= Most(front, back)
    ensures front > 0.0 && back > 0.0 ==> FrontBack(front, back) <= Least(front, back)
  {
    hide Times;
    if front > 0.0 && back > 0.0 {
      TimesIs(front, back);
      TimesAtMost(back, 1.0, front);
      TimesAtMost(front, 1.0, back);
      TimesOne(front);
      TimesOne(back);
      TimesAtMost(0.0, back, front);
      TimesOne(front);
    }
  }

  /** Independent losses multiply; without a loss on one side half the other's rate is assumed. */
  lemma FrontBackValues(front: real, back: real)
    requires IsLoss(front) && IsLoss(back)
    ensures front > 0.0 && back > 0.0 ==> FrontBack(front, back) == front * back
    ensures front == 0.0 && back >= 0.0 ==> 2.0 * FrontBack(front, back) == back
    ensures front == UNKNOWN ==> FrontBack(front, back) == back
  {
    hide Times;
    if front > 0.0 && back > 0.0 { TimesIs(front, back); }
  }

  lemma LossAt(losses: map<nat, real>, rate: nat)
    requires LossMap(losses) && rate in RATES
    ensures rate in losses && IsLoss(losses[rate])
  {}

  lemma LossMapSet(losses: map<nat, real>, rate: nat, loss: real)
    requires LossMap(losses) && IsLoss(loss)
    ensures LossMap(losses[rate := loss])
  {}

  predicate LocationBased(v: Version) { Sampling(v) && !v.BatchSeq? && !v.BatchRandom? }

  /** The loss rate over both antennas, by the mode that the version implies. */
  function CombinedLoss(v: Version, front: real, back: real, scout: real): real
  {
    if !Sampling(v) then back
    else if LocationBased(v) then FrontBack(Most(scout, front), back)
    else FrontBack(front, back)
  }

  lemma CombinedIsLoss(v: Version, front: real, back: real, scout: real)
    requires IsLoss(front) && IsLoss(back) && IsLoss(scout)
    ensures IsLoss(CombinedLoss(v, front, back, scout))
  {
    hide FrontBack;
    FrontBackIsLoss(front, back);
    FrontBackIsLoss(Most(scout, front), back);
  }

  /** Which antenna counts for which version. */
  lemma CombinedValues(v: Version, front: real, back: real, scout: real)
    ensures v in {SampleRate, Rraa, Fixed} ==> CombinedLoss(v, front, back, scout) == back
    ensures v in {BatchSeq, BatchRandom} ==> CombinedLoss(v, front, back, scout) == FrontBack(front, back)
    ensures v in {ScoutSeq, ScoutRandom, ScoutBoundLossSeq, ScoutBoundLossRandom} ==>
              CombinedLoss(v, front, back, scout) == FrontBack(if scout < front then front else scout, back)
  {
    hide FrontBack;
  }

  // ---------------------------------------------------------------------------------
  // Rates
  // ---------------------------------------------------------------------------------

  /** An empty list means that the antennas are not aligned, and every rate is tried. */
  predicate IsFeasible(feasible: seq<nat>, rate: nat) { |feasible| == 0 || rate in feasible }

  function Throughput(rate: nat, current: nat, loss: real, feasible: seq<nat>, thresh: real): real
  {
    if !IsFeasible(feasible, rate) || loss > thresh then 0.0
    else if loss == UNKNOWN then if rate > current then 0.0 else rate as real / 10.0
    else rate as real / 10.0 * (1.0 - loss)
  }

  /** What can be expected to arrive, in 100 kbit/s; nothing from a rate that is ruled out or untried and higher. */
  lemma ThroughputIs(rate: nat, current: nat, loss: real, feasible: seq<nat>, thresh: real)
    requires IsLoss(loss)
    ensures var tenfold := 10.0 * Throughput(rate, current, loss, feasible, thresh);
      && (feasible != [] && rate !in feasible ==> tenfold == 0.0)
      && (loss > thresh ==> tenfold == 0.0)
      && ((feasible == [] || rate in feasible) && loss <= thresh ==>
            tenfold == if loss != UNKNOWN then rate as real * (1.0 - loss)
                       else if rate <= current then rate as real else 0.0)
  {
    hide Times;
    TimesScaled(rate as real, 0.1, 1.0 - loss);
    TimesIs(rate as real, 1.0 - loss);
    TimesIs(rate as real / 10.0, 1.0 - loss);
  }

  lemma NonNegative(rate: nat, current: nat, loss: real, feasible: seq<nat>, thresh: real)
    requires IsLoss(loss)
    ensures Throughput(rate, current, loss, feasible, thresh) >= 0.0
  {
    if loss != UNKNOWN {
      NonNegativeProduct(rate as real / 10.0, 1.0 - loss);
    }
  }

  /** A rate above the current one has throughput only if it was tried before and not everything was lost. */
  lemma HigherRate(rate: nat, current: nat, loss: real, feasible: seq<nat>, thresh: real)
    requires IsLoss(loss) && rate > current
    ensures Throughput(rate, current, loss, feasible, thresh) > 0.0 ==>
              IsFeasible(feasible, rate) && UNKNOWN < loss <= thresh && loss < 1.0
  {}

  lemma LowestRate(rate: nat)
    requires rate in RATES
    ensures |RATES| > 0 && RATES[0] <= rate
  {}

  /** Every packet is lost at every rate. */
  ghost predicate AllLost(losses: map<nat, real>)
  {
    forall rate | rate in RATES :: rate in losses && losses[rate] == 1.0
  }

  /** When nothing gets through at any rate, the first rate of highest throughput is the lowest one. */
  lemma FallsBack(losses: map<nat, real>, rate: nat, current: nat, feasible: seq<nat>, thresh: real)
    requires LossMap(losses) && rate in RATES
    requires forall r | r in RATES && r < rate ::
               Throughput(r, current, losses[r], feasible, thresh)
               < Throughput(rate, current, losses[rate], feasible, thresh)
    ensures AllLost(losses) ==> rate == RATES[0]
  {
    LowestRate(rate);
    var low := RATES[0];
    assert low in RATES;
    assert low < rate && low in losses ==>
        Throughput(low, current, losses[low], feasible, thresh)
        < Throughput(rate, current, losses[rate], feasible, thresh);
  }

  /** The first index of a maximum. */
  method FindMaxInd(arr: seq<real>) returns (maxInd: nat)
    requires |arr| > 0
    ensures maxInd < |arr|
    ensures forall i | 0 <= i < |arr| :: arr[i] <= arr[maxInd]
    ensures forall i | 0 <= i < maxInd :: arr[i] < arr[maxInd]
  {
    maxInd := 0;
    for i := 1 to |arr|
      invariant maxInd < i && maxInd < |arr|
      invariant forall j | 0 <= j < i :: arr[j] <= arr[maxInd]
      invariant forall j | 0 <= j < maxInd :: arr[j] < arr[maxInd]
    {
      if arr[maxInd] < arr[i] {
        maxInd := i;
      }
    }
  }

  predicate Ascending(s: seq<nat>) { forall i, j | 0 <= i < j < |s| :: s[i] <= s[j] }

  /** Where a value goes in an ascending list. */
  function Position(s: seq<nat>, x: nat): (i: nat)
    requires Ascending(s)
    ensures i <= |s| && (forall j | 0 <= j < i :: s[j] < x) && forall j | i <= j < |s| :: x <= s[j]
  {
    if s == [] || x <= s[0] then 0 else 1 + Position(s[1..], x)
  }

  function Insert(s: seq<nat>, x: nat): (r: seq<nat>)
    requires Ascending(s)
    ensures |r| == |s| + 1
  {
    var i := Position(s, x);
    s[..i] + [x] + s[i..]
  }

  lemma InsertAscends(s: seq<nat>, x: nat)
    requires Ascending(s)
    ensures Ascending(Insert(s, x))
  {}

  lemma InsertKeeps(s: seq<nat>, x: nat)
    requires Ascending(s)
    ensures multiset(Insert(s, x)) == multiset(s) + multiset{x}
  {
    hide Ascending;
    var i := Position(s, x);
    assert s == s[..i] + s[i..];
  }

  /** The library sort. */
  function Sort(s: seq<nat>): (r: seq<nat>)
    ensures Ascending(r) && |r| == |s|
  {
    if s == [] then []
    else
      InsertAscends(Sort(s[1..]), s[0]);
      Insert(Sort(s[1..]), s[0])
  }

  lemma {:induction false} SortKeeps(s: seq<nat>)
    ensures multiset(Sort(s)) == multiset(s)
  {
    hide Insert, Ascending;
    if s != [] {
      SortKeeps(s[1..]);
      InsertKeeps(Sort(s[1..]), s[0]);
      assert s == [s[0]] + s[1..];
    }
  }

  /** n times the current rate, and the rates being sampled. */
  function Copies(rate: nat, n: nat): (r: seq<nat>)
    ensures |r| == n && forall i | 0 <= i < n :: r[i] == rate
  {
    seq(n, _ => rate)
  }

  function RateInd(rate: nat): (i: nat)
    requires rate in RATES
    ensures i < |RATES| && RATES[i] == rate
  {
    var i :| 0 <= i < |RATES| && RATES[i] == rate && forall j | 0 <= j < i :: RATES[j] != rate;
    i
  }

  /** What looking up the front antenna's records at this place gives: loss rates, and the rates worth trying. */
  datatype Lookup = Lookup(losses: seq<real>, feasible: seq<nat>) {
    predicate Valid() { |losses| == |RATES| && forall i | 0 <= i < |losses| :: IsLoss(losses[i]) }
  }

  class ScoutRateAdaptation {
    var rate: nat
    var version: Version
    var useFec: bool
    /** An option of the program, set before its threads start. */
    const enableDuplicate: bool
    var duplicateThresh: real
    var lossBound: real
    var feasible: seq<nat>
    var sampleRates: seq<nat>
    var lossFront: map<nat, real>
    var lossBack: map<nat, real>
    var lossScout: map<nat, real>
    var lossCombine: map<nat, real>

    ghost predicate Valid()
      reads this
    {
      && rate in RATES
      && LossMap(lossFront) && LossMap(lossBack) && LossMap(lossScout) && LossMap(lossCombine)
    }

    constructor (version: Version, enableDuplicate: bool)
      ensures Valid() && this.version == version && rate == RATES[0] && useFec
      ensures lossBound == 0.65 && duplicateThresh == 0.7 && feasible == sampleRates == []
      ensures forall r | r in RATES :: lossFront[r] == lossBack[r] == lossScout[r] == lossCombine[r] == UNKNOWN
      ensures this.enableDuplicate == enableDuplicate
    {
      rate, this.version, useFec, this.enableDuplicate := RATES[0], version, true, enableDuplicate;
      duplicateThresh, lossBound := 0.7, 0.65;
      feasible, sampleRates := [], [];
      var unknown := map r | r in RATES :: UNKNOWN;
      lossFront, lossBack, lossScout, lossCombine := unknown, unknown, unknown, unknown;
    }

    /** The location-based versions look up what the front antenna saw here. */
    method LookUpFront(lookup: Lookup)
      requires Valid() && lookup.Valid()
      modifies this`lossScout, this`feasible
      ensures Valid() && feasible == lookup.feasible
      ensures forall i | 0 <= i < |RATES| :: lossScout[RATES[i]] == lookup.losses[i]
    {
      hide RATES, LossMap;
      lossScout := SetLossRates(lossScout, lookup.losses);
      feasible := lookup.feasible;
    }

    method CalcLossRatesAfterCombine(lookup: Lookup)
      requires Valid() && lookup.Valid()
      modifies this`lossScout, this`lossCombine, this`feasible
      ensures Valid()
      ensures forall r | r in RATES :: lossCombine[r] == CombinedLoss(version, lossFront[r], lossBack[r], lossScout[r])
      ensures LocationBased(version) ==>
                feasible == lookup.feasible && forall i | 0 <= i < |RATES| :: lossScout[RATES[i]] == lookup.losses[i]
    {
      hide RATES, LossMap, CombinedLoss;
      RatesAscend();
      if LocationBased(version) {
        LookUpFront(lookup);
      }
      for i := 0 to |RATES|
        invariant LossMap(lossCombine)
        invariant forall j | 0 <= j < i :: Combines(RATES[j])
        modifies this`lossCombine
      {
        var r := RATES[i];
        LossAt(lossFront, r);
        LossAt(lossBack, r);
        LossAt(lossScout, r);
        LossAt(lossCombine, r);
        var loss := CombinedLoss(version, lossFront[r], lossBack[r], lossScout[r]);
        CombinedIsLoss(version, lossFront[r], lossBack[r], lossScout[r]);
        LossMapSet(lossCombine, r, loss);
        lossCombine := lossCombine[r := Updated(lossCombine[r], loss, -1.0)];
      }
      forall r | r in RATES ensures lossCombine[r] == CombinedLoss(version, lossFront[r], lossBack[r], lossScout[r]) {
        RateIndIs(r);
        assert Combines(RATES[RateInd(r)]);
      }
    }

    ghost predicate Combines(r: nat)
      reads this`version, this`lossFront, this`lossBack, this`lossScout, this`lossCombine
    {
      && r in lossFront && r in lossBack && r in lossScout && r in lossCombine
      && lossCombine[r] == CombinedLoss(version, lossFront[r], lossBack[r], lossScout[r])
    }

    /** New loss rates for all rates, without weight for the old ones. */
    static method SetLossRates(losses: map<nat, real>, lossArr: seq<real>) returns (r: map<nat, real>)
      requires LossMap(losses) && |lossArr| == |RATES| && forall i | 0 <= i < |lossArr| :: IsLoss(lossArr[i])
      ensures LossMap(r) && forall i | 0 <= i < |RATES| :: r[RATES[i]] == lossArr[i]
    {
      hide RATES, LossMap;
      RatesAscend();
      r := losses;
      for i := 0 to |RATES|
        invariant LossMap(r) && forall j | 0 <= j < i :: RATES[j] in r && r[RATES[j]] == lossArr[j]
      {
        LossAt(r, RATES[i]);
        LossMapSet(r, RATES[i], lossArr[i]);
        r := r[RATES[i] := Updated(r[RATES[i]], lossArr[i], -1.0)];
      }
    }

    /** Called after too many timeouts in a row. */
    method SetHighLoss()
      requires Valid()
      modifies this`lossFront, this`lossBack, this`lossScout
      ensures Valid() && AllLost(lossFront) && AllLost(lossBack) && AllLost(lossScout)
    {
      hide RATES, LossMap, AllLost;
      var lossArr := seq(|RATES|, _ => 1.0);
      lossFront := SetLossRates(lossFront, lossArr);
      LostAll(lossFront);
      lossBack := SetLossRates(lossBack, lossArr);
      LostAll(lossBack);
      lossScout := SetLossRates(lossScout, lossArr);
      LostAll(lossScout);
    }

    /** The feasible rate of the highest throughput; a rate above the current one only if its loss is known. */
    method ApplyRateScout(thresh: real)
      requires Valid() && thresh >= 0.0
      modifies this`rate
      ensures Valid()
      ensures forall r | r in RATES :: Throughput(r, old(rate), lossCombine[r], feasible, thresh)
                                       <= Throughput(rate, old(rate), lossCombine[rate], feasible, thresh)
      ensures rate > old(rate) ==>
          IsFeasible(feasible, rate) && UNKNOWN < lossCombine[rate] <= thresh && lossCombine[rate] < 1.0
      ensures forall r | r in RATES && r < rate :: Throughput(r, old(rate), lossCombine[r], feasible, thresh)
                                                   < Throughput(rate, old(rate), lossCombine[rate], feasible, thresh)
    {
      hide RATES, LossMap, Throughput;
      RatesAscend();
      var arr: seq<real> := [];
      for i := 0 to |RATES|
        invariant rate == old(rate) && |arr| == i && forall j | 0 <= j < i ::
          RATES[j] in lossCombine && arr[j] == Throughput(RATES[j], rate, lossCombine[RATES[j]], feasible, thresh)
      {
        LossAt(lossCombine, RATES[i]);
        arr := arr + [Throughput(RATES[i], rate, lossCombine[RATES[i]], feasible, thresh)];
      }
      var maxInd := FindMaxInd(arr);
      LossAt(lossCombine, RATES[0]);
      LossAt(lossCombine, RATES[maxInd]);
      NonNegative(RATES[0], rate, lossCombine[RATES[0]], feasible, thresh);
      if RATES[maxInd] > rate {
        HigherRate(RATES[maxInd], rate, lossCombine[RATES[maxInd]], feasible, thresh);
      }
      LowestRate(rate);
      forall r | r in RATES
        ensures r in lossCombine && Throughput(r, rate, lossCombine[r], feasible, thresh) <= arr[maxInd]
        ensures r < RATES[maxInd] ==> Throughput(r, rate, lossCombine[r], feasible, thresh) < arr[maxInd]
      {
        RateIndIs(r);
        assert arr[RateInd(r)] <= arr[maxInd];
      }
      rate := RATES[maxInd];
    }

    /** The bound-loss versions rule out rates by their loss, the others by nothing: no loss rate is above 1.5. */
    function LossThresh(): real
      reads this`version, this`lossBound
    {
      if version.ScoutBoundLossSeq? || version.ScoutBoundLossRandom? then lossBound else 1.5
    }

    /** No rate promises more, and no lower one as much, as seen from the rate before. */
    ghost predicate Best(before: nat)
      reads this`rate, this`version, this`lossBound, this`lossCombine, this`feasible
    {
      && rate in lossCombine
      && forall r | r in RATES :: r in lossCombine &&
           var here := Throughput(r, before, lossCombine[r], feasible, LossThresh());
           var best := Throughput(rate, before, lossCombine[rate], feasible, LossThresh());
           here <= best && (r < rate ==> here < best)
    }

    /** baseline is the choice of the SampleRate or RRAA algorithm. */
    method ApplyRate(baseline: nat)
      requires Valid() && baseline in RATES && lossBound >= 0.0
      modifies this`rate
      ensures Valid()
      ensures version.Fixed? ==> rate == old(rate)
      ensures Baseline(version) ==> rate == baseline
      ensures Sampling(version) ==> Best(old(rate)) && (AllLost(lossCombine) ==> rate == RATES[0])
    {
      hide Throughput, RATES, AllLost;
      ghost var before := rate;
      if Baseline(version) {
        rate := baseline;
      } else if version.ScoutBoundLossSeq? || version.ScoutBoundLossRandom? {
        ApplyRateScout(lossBound);
        FallsBack(lossCombine, rate, before, feasible, lossBound);
      } else if !version.Fixed? {
        ApplyRateScout(1.5);
        FallsBack(lossCombine, rate, before, feasible, 1.5);
      }
    }

    /** A feasible rate at most `reach` places above the current one. */
    ghost predicate Higher(r: nat, reach: nat)
      requires rate in RATES
      reads this`rate, this`feasible
    {
      && IsFeasible(feasible, r)
      && exists j | RateInd(rate) < j < |RATES| :: j <= RateInd(rate) + reach && RATES[j] == r
    }

    /** Such a rate, or the next lower one. */
    ghost predicate Sampled(r: nat, reach: nat)
      requires rate in RATES
      reads this`rate, this`feasible
    {
      || Higher(r, reach)
      || r == RATES[if RateInd(rate) > 0 then RateInd(rate) - 1 else 0]
    }

    ghost predicate AllSampled(rates: seq<nat>, reach: nat)
      requires rate in RATES
      reads this`rate, this`feasible
    {
      forall r | r in rates :: Sampled(r, reach)
    }

    /** The samples begin with a higher rate whenever there is one. */
    ghost predicate LooksUp(rates: seq<nat>, reach: nat)
      requires rate in RATES
      reads this`rate, this`feasible
    {
      (exists r :: Higher(r, reach)) ==> rates != [] && Higher(rates[0], reach)
    }

    /** Those of the first `upTo` places above the current rate are there. */
    ghost predicate FoundUpTo(rates: seq<nat>, upTo: nat)
      requires rate in RATES
      reads this`rate, this`feasible
    {
      && (forall r :: Higher(r, upTo) ==> rates != [])
      && forall r | r in rates :: Higher(r, upTo)
    }

    lemma FoundNext(rates: seq<nat>, upTo: nat)
      requires rate in RATES && FoundUpTo(rates, upTo)
      ensures var j := RateInd(rate) + 1 + upTo;
        FoundUpTo(if j < |RATES| && IsFeasible(feasible, RATES[j]) then rates + [RATES[j]] else rates, upTo + 1)
    {
      hide RATES, RateInd;
      var j := RateInd(rate) + 1 + upTo;
      forall r | Higher(r, upTo + 1) && !Higher(r, upTo)
        ensures j < |RATES| && r == RATES[j] && IsFeasible(feasible, r) {}
      forall r | Higher(r, upTo) ensures Higher(r, upTo + 1) {
        HigherGrows(r, upTo, upTo + 1);
      }
      if j < |RATES| && IsFeasible(feasible, RATES[j]) {
        assert Higher(RATES[j], upTo + 1);
      }
    }

    lemma HigherGrows(r: nat, near: nat, far: nat)
      requires rate in RATES && near <= far && Higher(r, near)
      ensures Higher(r, far)
    {
      hide RATES, RateInd;
      var j :| RateInd(rate) < j < |RATES| && j <= RateInd(rate) + near && RATES[j] == r;
      assert j <= RateInd(rate) + far;
    }

    method SampleRatesSequential(startInd: nat, num: nat)
      requires rate in RATES && startInd == RateInd(rate) + 1
      modifies this`sampleRates
      ensures |sampleRates| <= num && AllSampled(sampleRates, num) && LooksUp(sampleRates, num)
    {
      hide RATES, RateInd, ScoutRateAdaptation.Higher, ScoutRateAdaptation.FoundUpTo;
      RatesAscend();
      sampleRates := [];
      NothingNear();
      var i := 0;
      while i < num
        invariant i <= num && |sampleRates| <= i && FoundUpTo(sampleRates, i)
        invariant startInd == RateInd(rate) + 1
      {
        if startInd + i >= |RATES| {
          break;
        }
        var sampleRate := RATES[startInd + i];
        FoundNext(sampleRates, i);
        if IsFeasible(feasible, sampleRate) {
          sampleRates := sampleRates + [sampleRate];
        }
        i := i + 1;
      }
      AllFound(sampleRates, i, num);
    }

    lemma NothingNear()
      requires rate in RATES
      ensures FoundUpTo([], 0)
    {
      hide RATES;
    }

    /** Beyond the last rate there is nothing more to find. */
    lemma AllFound(rates: seq<nat>, i: nat, reach: nat)
      requires rate in RATES && FoundUpTo(rates, i) && i <= reach
      requires i < reach ==> RateInd(rate) + 1 + i >= |RATES|
      ensures FoundUpTo(rates, reach) && AllSampled(rates, reach) && LooksUp(rates, reach)
    {
      hide RATES, RateInd;
      forall r | Higher(r, i) ensures Higher(r, reach) { HigherGrows(r, i, reach); }
      forall r | Higher(r, reach) ensures Higher(r, i) {
        var j :| RateInd(rate) < j < |RATES| && j <= RateInd(rate) + reach && RATES[j] == r;
        assert j <= RateInd(rate) + i;
      }
      FoundMeans(rates, reach);
    }

    lemma FoundMeans(rates: seq<nat>, reach: nat)
      requires rate in RATES && FoundUpTo(rates, reach)
      ensures AllSampled(rates, reach) && LooksUp(rates, reach)
    {
      hide RATES, RateInd, ScoutRateAdaptation.Higher;
      if rates != [] { assert rates[0] in rates; }
    }

    method SampleRatesRandom(startInd: nat, num: nat, bound: nat)
      requires rate in RATES && startInd == RateInd(rate) + 1 && num <= bound
      modifies this`sampleRates
      ensures |sampleRates| <= num && AllSampled(sampleRates, bound) && (num > 0 ==> LooksUp(sampleRates, bound))
    {
      hide RATES, RateInd, ScoutRateAdaptation.Higher, ScoutRateAdaptation.Sampled;
      var rates := Candidates(startInd, bound);
      sampleRates := [];
      var i := 0;
      while i < num
        invariant i <= num && |sampleRates| <= i
        invariant forall r | r in rates || r in sampleRates :: Higher(r, bound)
        invariant (i == 0 && FoundUpTo(rates, bound)) || sampleRates != [] || FoundUpTo([], bound)
      {
        if |rates| == 0 {
          break;
        }
        var ind :| 0 <= ind < |rates|;
        ghost var before := rates;
        sampleRates := sampleRates + [rates[ind]];
        rates := rates[..ind] + rates[ind + 1..];
        assert forall r | r in rates :: r in before;
        i := i + 1;
      }
      if num > 0 {
        FoundMeans(sampleRates, bound);
      }
    }

    /** The feasible rates within the bound. */
    method Candidates(startInd: nat, bound: nat) returns (rates: seq<nat>)
      requires rate in RATES && startInd == RateInd(rate) + 1
      ensures FoundUpTo(rates, bound)
    {
      hide RATES, RateInd, ScoutRateAdaptation.Higher, ScoutRateAdaptation.FoundUpTo;
      RatesAscend();
      rates := [];
      NothingNear();
      var i := 0;
      while i < bound
        invariant i <= bound && FoundUpTo(rates, i)
      {
        if startInd + i >= |RATES| {
          break;
        }
        FoundNext(rates, i);
        if IsFeasible(feasible, RATES[startInd + i]) {
          rates := rates + [RATES[startInd + i]];
        }
        i := i + 1;
      }
      AllFound(rates, i, bound);
    }

    /** Exactly num rates are sampled, or none when the version does not sample. */
    method SampleRates(num: nat, bound: nat)
      requires rate in RATES && num <= bound
      modifies this`sampleRates
      ensures |sampleRates| == if Sampling(version) then num else 0
      ensures AllSampled(sampleRates, if Sequential(version) then num else bound)
      ensures Sampling(version) && num > 0 ==> LooksUp(sampleRates, if Sequential(version) then num else bound)
    {
      hide RATES, RateInd;
      RatesAscend();
      sampleRates := [];
      if num == 0 || !Sampling(version) {
        return;
      }
      var startInd := RateInd(rate) + 1;
      if Sequential(version) {
        SampleRatesSequential(startInd, num);
      } else {
        SampleRatesRandom(startInd, num, bound);
      }
      ghost var found := sampleRates;
      FillSamples(num, startInd, if Sequential(version) then num else bound);
      assert found != [] ==> sampleRates[0] == found[0];
    }

    /** The rest of the samples protect the higher ones with the next lower rate. */
    method FillSamples(num: nat, startInd: nat, ghost reach: nat)
      requires rate in RATES && startInd == RateInd(rate) + 1
      requires |sampleRates| <= num && AllSampled(sampleRates, reach)
      modifies this`sampleRates
      ensures |sampleRates| == num && AllSampled(sampleRates, reach) && old(sampleRates) <= sampleRates
    {
      hide RATES, RateInd;
      RatesAscend();
      var sampleLeft := num - |sampleRates|;
      var sampleInd := if startInd - 2 < 0 then 0 else startInd - 2;
      for i := 0 to sampleLeft
        invariant |sampleRates| == num - sampleLeft + i && AllSampled(sampleRates, reach)
        invariant old(sampleRates) <= sampleRates
        modifies this`sampleRates
      {
        assert Sampled(RATES[sampleInd], reach);
        sampleRates := sampleRates + [RATES[sampleInd]];
      }
    }

    /** baseline gives the further choices of SampleRate or RRAA; the scout versions send slow packets first. */
    method FindRatesForBatch(numDataPkts: nat, baseline: seq<nat>) returns (rateArr: seq<nat>, n: nat)
      requires |baseline| == if numDataPkts == 0 then 0 else numDataPkts - 1
      requires Sampling(version) || sampleRates == []
      ensures n == |rateArr| == (if Baseline(version) then 1 + |baseline| else numDataPkts) + |sampleRates|
      ensures Baseline(version) ==> rateArr == [rate] + baseline
      ensures version.Fixed? ==> rateArr == Copies(rate, n)
      ensures Sampling(version) ==> Ascending(rateArr)
                                    && multiset(rateArr) == multiset(Copies(rate, numDataPkts)) + multiset(sampleRates)
    {
      hide Sort, Ascending;
      rateArr := [];
      if Baseline(version) {
        rateArr := [rate];
        for i := 0 to |baseline|
          invariant rateArr == [rate] + baseline[..i]
        {
          rateArr := rateArr + [baseline[i]];
        }
        assert baseline[..|baseline|] == baseline;
      } else {
        for i := 0 to numDataPkts
          invariant rateArr == Copies(rate, i)
        {
          rateArr := rateArr + [rate];
        }
        if Sampling(version) {
          for i := 0 to |sampleRates|
            invariant rateArr == Copies(rate, numDataPkts) + sampleRates[..i]
          {
            rateArr := rateArr + [sampleRates[i]];
          }
          assert sampleRates[..|sampleRates|] == sampleRates;
          SortKeeps(rateArr);
          rateArr := Sort(rateArr);
        }
      }
      n := |rateArr|;
    }

    ghost predicate HighLoss()
      requires Valid()
      reads this
    {
      lossCombine[rate] > duplicateThresh
    }

    /** When the assertions behind a decision hold at the selected rate. */
    predicate Accepts(mode: TransmitMode, coherenceTime: nat, pktSize: nat, extraTime: nat, k: nat)
      requires rate > 0
      reads this
    {
      var d := PktDuration(pktSize, rate, extraTime);
      match mode
      case TimeOut => 0 < k < MAX_K
      case Data => 1 <= d && (useFec ==> d <= coherenceTime)
      case Retrans => 1 <= d && 0 < k <= MostPkts(coherenceTime, d) && k <= MAX_K
    }

    /** The one accepted case without a packet: no FEC, and not one packet fits the coherence time. */
    predicate TooShort(mode: TransmitMode, coherenceTime: nat, pktSize: nat, extraTime: nat)
      requires rate > 0
      reads this`rate
    {
      mode.Data? && PktDuration(pktSize, rate, extraTime) > coherenceTime
    }

    /** What the rule of each mode says with FEC about k data packets and n coded ones. */
    ghost predicate FecRule(mode: TransmitMode, coherenceTime: nat, pktSize: nat, extraTime: nat, k: nat, n: nat)
      requires rate > 0 && rate in lossCombine
      reads this`rate, this`lossCombine
    {
      var loss, d := lossCombine[rate], PktDuration(pktSize, rate, extraTime);
      match mode
      case Data =>
        && Arrives(loss, k, n)
        && AllOrEnough(loss, Fitting(coherenceTime, d), n) && AsManyAsCan(loss, Fitting(coherenceTime, d), k, n)
      case TimeOut =>
        var q := LateShare(loss, k);
        Suffices(k, n, q, loss) && !Suffices(k, n - 1, q, loss)
      case Retrans =>
        var q := if loss == UNKNOWN then 0.15 else 0.95 - loss;
        (n == MostPkts(coherenceTime, d) || Suffices(k, n, q, loss)) && !Suffices(k, n - 1, q, loss)
    }

    method ApplyFEC(mode: TransmitMode, coherenceTime: nat, pktSize: nat, extraTime: nat, k0: nat)
      returns (ok: bool, k: nat, n: nat)
      requires Valid()
      ensures rate > 0 && (ok <==> Accepts(mode, coherenceTime, pktSize, extraTime, k0))
      ensures ok && !TooShort(mode, coherenceTime, pktSize, extraTime) ==>
                1 <= k <= MAX_K && k <= n <= MAX_N && (!mode.Data? ==> k == k0)
      ensures ok && TooShort(mode, coherenceTime, pktSize, extraTime) ==> k == n == 0
      ensures ok && !mode.TimeOut? ==> n * PktDuration(pktSize, rate, extraTime) <= coherenceTime
      ensures ok && mode.TimeOut? && useFec && Moderate(lossCombine[rate]) ==>
                n >= Ceil(k as real / (1.0 - lossCombine[rate])) + EXTRA_NUM_PKTS
      ensures ok && mode.Data? && useFec ==> Arrives(lossCombine[rate], k, n)
      ensures ok && !useFec && !mode.Data? ==> n == k
      ensures ok && useFec ==> FecRule(mode, coherenceTime, pktSize, extraTime, k, n)
    {
      hide Ceil, PktDuration, LossMap, MostPkts, Fitting, RATES, Moderate, Suffices, AllOrEnough, AsManyAsCan;
      hide LateShare, Arrives;
      RatesAscend();
      LossAt(lossCombine, rate);
      var loss := lossCombine[rate];
      k := k0;
      match mode
      case Data => ok, k, n := ApplyFECForData(useFec, loss, coherenceTime, PktDuration(pktSize, rate, extraTime));
      case TimeOut => ok, n := ApplyFECForTimeOut(useFec, loss, k);
      case Retrans =>
        ok, n := ApplyFECForRetransmission(useFec, loss, coherenceTime, PktDuration(pktSize, rate, extraTime), k);
    }

    lemma AllCombined()
      requires Valid()
      requires forall r | r in RATES ::
                 lossCombine[r] == CombinedLoss(version, lossFront[r], lossBack[r], lossScout[r])
      ensures forall r | r in RATES :: Combines(r)
    {
      hide RATES, CombinedLoss;
    }

    /** What only the selected rate and the loss rates decide. */
    method SelectRate(lookup: Lookup, baseline: nat)
      requires Valid() && lookup.Valid() && lossBound >= 0.0 && baseline in RATES
      modifies this`rate, this`lossScout, this`lossCombine, this`feasible
      ensures Valid() && (Sampling(version) && AllLost(lossFront) && AllLost(lossBack) ==> rate == RATES[0])
      ensures (Baseline(version) ==> rate == baseline) && (version.Fixed? ==> rate == old(rate))
      ensures forall r | r in RATES :: Combines(r)
      ensures Sampling(version) ==> Best(old(rate))
    {
      hide LossMap, RATES, Throughput, CombinedLoss, AllLost, ScoutRateAdaptation.Best;
      CalcLossRatesAfterCombine(lookup);
      StaysLost(version, lossFront, lossBack, lossScout, lossCombine);
      AllCombined();
      ApplyRate(baseline);
    }

    /**
     k packets, n coded packets and a rate for each of them. baseline lists the choices that the
     SampleRate or RRAA algorithm would make from now on. ok tells whether the program goes on,
     which the selected rate decides.
    */
    method MakeDecision(mode: TransmitMode, coherenceTime: nat, pktSize: nat, extraTime: nat, k0: nat,
                        lookup: Lookup, baseline: seq<nat>)
      returns (ok: bool, k: nat, n: nat, rateArr: seq<nat>, isDuplicate: bool)
      requires Valid() && lookup.Valid() && lossBound >= 0.0
      requires |baseline| == MAX_N && forall r | r in baseline :: r in RATES
      modifies this`rate, this`lossScout, this`lossCombine, this`feasible, this`sampleRates
      ensures Valid() && rate > 0 && (mode.TimeOut? ==> rate == old(rate) && lossCombine == old(lossCombine))
      ensures ok <==> Accepts(mode, coherenceTime, pktSize, extraTime, k0)
      ensures ok && !TooShort(mode, coherenceTime, pktSize, extraTime) ==>
                1 <= k <= MAX_K && k <= n <= MAX_N + NUM_SAMPLE_RATES && (!mode.Data? ==> k == k0)
      ensures ok && TooShort(mode, coherenceTime, pktSize, extraTime) ==> k == 0 && n <= 1
      ensures ok ==> |rateArr| == n && forall r | r in rateArr :: r in RATES
      ensures ok ==> (isDuplicate <==> enableDuplicate && (HighLoss() || mode.Retrans? || rate == RATES[0]))
      ensures ok ==> |sampleRates| == (if Sampling(version) then NUM_SAMPLE_RATES else 0) <= n
      ensures ok && isDuplicate && k > 0 ==> n - |sampleRates| == k
      ensures ok && !mode.TimeOut? && !isDuplicate && k > 0 ==>
                (n - |sampleRates|) * PktDuration(pktSize, rate, extraTime) <= coherenceTime
      ensures ok && !mode.TimeOut? && Sampling(version) && AllLost(lossFront) && AllLost(lossBack) ==>
                rate == RATES[0] && isDuplicate == enableDuplicate
      ensures ok && mode.TimeOut? && !isDuplicate && useFec && Moderate(lossCombine[rate]) ==>
                n - |sampleRates| >= Ceil(k as real / (1.0 - lossCombine[rate])) + EXTRA_NUM_PKTS
      ensures ok && useFec && !isDuplicate ==>
                FecRule(mode, coherenceTime, pktSize, extraTime, k, n - |sampleRates|)
      ensures ok && useFec && isDuplicate ==> exists m: nat :: FecRule(mode, coherenceTime, pktSize, extraTime, k, m)
      ensures ok ==> RatesChosen(rateArr, if mode.TimeOut? then baseline else baseline[1..])
      ensures !mode.TimeOut? ==> (forall r | r in RATES :: Combines(r)) && (Sampling(version) ==> Best(old(rate)))
      ensures !mode.TimeOut? ==> (Baseline(version) ==> rate == baseline[0]) && (version.Fixed? ==> rate == old(rate))
    {
      hide Ceil, PktDuration, LossMap, RATES, AllLost, Ascending, MostPkts, AllSampled, Suffices, AllOrEnough;
      hide AsManyAsCan, LateShare, Fitting, ScoutRateAdaptation.FecRule, ScoutRateAdaptation.RatesChosen;
      hide ScoutRateAdaptation.Combines, ScoutRateAdaptation.Best;
      if !mode.TimeOut? {
        SelectRate(lookup, baseline[0]);
      }
      var nNoSampling;
      ok, k, nNoSampling := ApplyFEC(mode, coherenceTime, pktSize, extraTime, k0);
      n, rateArr, isDuplicate := 0, [], false;
      if !ok {
        return;
      }
      LossAt(lossCombine, rate);
      ghost var nFec := nNoSampling;
      isDuplicate := enableDuplicate && (lossCombine[rate] > duplicateThresh || mode.Retrans? || rate == RATES[0]);
      if isDuplicate {
        nNoSampling := k;
      }
      rateArr, n := ChooseRates(nNoSampling, if mode.TimeOut? then baseline else baseline[1..]);
      assert useFec ==> FecRule(mode, coherenceTime, pktSize, extraTime, k, nFec);
    }

    /** The selected rate for all but the samples, or followed by the choices of the baseline algorithm. */
    ghost predicate RatesChosen(rateArr: seq<nat>, baseline: seq<nat>)
      requires rate in RATES
      reads this`rate, this`version, this`sampleRates, this`feasible
    {
      && (Baseline(version) ==> 1 <= |rateArr| <= 1 + |baseline| && rateArr == [rate] + baseline[..|rateArr| - 1])
      && (version.Fixed? ==> rateArr == Copies(rate, |rateArr|))
      && (Sampling(version) ==>
            && Ascending(rateArr) && |sampleRates| <= |rateArr|
            && multiset(rateArr) == multiset(Copies(rate, |rateArr| - |sampleRates|)) + multiset(sampleRates)
            && AllSampled(sampleRates, if Sequential(version) then NUM_SAMPLE_RATES else SAMPLE_BOUND)
            && LooksUp(sampleRates, if Sequential(version) then NUM_SAMPLE_RATES else SAMPLE_BOUND))
    }

    /** The samples and the list of rates for the batch. */
    method ChooseRates(num: nat, baseline: seq<nat>) returns (rateArr: seq<nat>, n: nat)
      requires rate in RATES && num <= |baseline| + 1 && forall r | r in baseline :: r in RATES
      modifies this`sampleRates
      ensures |sampleRates| == if Sampling(version) then NUM_SAMPLE_RATES else 0
      ensures n == |rateArr| == (if Baseline(version) && num == 0 then 1 else num) + |sampleRates|
      ensures RatesChosen(rateArr, baseline) && forall r | r in rateArr :: r in RATES
    {
      hide RATES, Ascending, AllSampled, ScoutRateAdaptation.LooksUp;
      SampleRates(NUM_SAMPLE_RATES, SAMPLE_BOUND);
      SampledAreRates(sampleRates, if Sequential(version) then NUM_SAMPLE_RATES else SAMPLE_BOUND);
      var choices := baseline[..if num == 0 then 0 else num - 1];
      rateArr, n := FindRatesForBatch(num, choices);
      AllRates(version, rateArr, rate, num, sampleRates, choices);
    }

    lemma SampledAreRates(rates: seq<nat>, reach: nat)
      requires rate in RATES && AllSampled(rates, reach)
      ensures forall r | r in rates :: r in RATES
    {
      hide RATES, RateInd;
      RatesAscend();
      forall r | r in rates ensures r in RATES { assert Sampled(r, reach); }
    }
  }

  /** Without FEC a coherence time shorter than any packet gives a batch without packets. */
  method EmptyBatchWithoutFec() returns (ok: bool, k: nat)
    ensures ok && k == 0
  {
    hide RATES, LossMap, PktDuration, AllLost, Sampling, Baseline, ScoutRateAdaptation.HighLoss;
    RatesAscend();
    var rateMaker := new ScoutRateAdaptation(Fixed, true);
    rateMaker.useFec := false;
    var lookup := Lookup(seq(|RATES|, _ => UNKNOWN), []);
    var n, rateArr, isDuplicate;
    ok, k, n, rateArr, isDuplicate :=
      rateMaker.MakeDecision(Data, 50, 1000, 55, 0, lookup, seq(MAX_N, _ => RATES[0]));
  }

  lemma LostAll(losses: map<nat, real>)
    requires LossMap(losses) && forall i | 0 <= i < |RATES| :: losses[RATES[i]] == 1.0
    ensures AllLost(losses)
  {
    hide RATES;
    forall r | r in RATES ensures losses[r] == 1.0 { RateIndIs(r); }
  }

  /** High loss on both antennas is high loss, whatever the scout saw. */
  lemma StaysLost(v: Version, front: map<nat, real>, back: map<nat, real>, scout: map<nat, real>,
                  combined: map<nat, real>)
    requires LossMap(front) && LossMap(back) && LossMap(scout) && LossMap(combined)
    requires forall r | r in RATES :: combined[r] == CombinedLoss(v, front[r], back[r], scout[r])
    ensures AllLost(front) && AllLost(back) ==> AllLost(combined)
  {
    hide RATES;
  }

  /** Every entry of the list is the current rate, a sampled rate or a choice of the baseline. */
  lemma AllRates(v: Version, rateArr: seq<nat>, rate: nat, n: nat, sampled: seq<nat>, baseline: seq<nat>)
    requires rate in RATES && (forall r | r in sampled :: r in RATES) && forall r | r in baseline :: r in RATES
    requires if Baseline(v) then rateArr == [rate] + baseline
             else if v.Fixed? then rateArr == Copies(rate, n)
             else multiset(rateArr) == multiset(Copies(rate, n)) + multiset(sampled)
    ensures forall r | r in rateArr :: r in RATES
  {
    hide RATES;
    forall r | r in rateArr ensures r in RATES {
      if Sampling(v) {
        assert r in multiset(rateArr);
      }
    }
  }

  lemma RateIndIs(rate: nat)
    requires rate in RATES
    ensures RateInd(rate) < |RATES| && RATES[RateInd(rate)] == rate
  {}
}
