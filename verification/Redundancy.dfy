/** How many packets to put into a batch and how many coded packets to send for it, over exact reals. */
module Redundancy {
  import opened Reals

  const MAX_K: nat := 10
  /** Coded packets per batch, not counting the sampled one. */
  const MAX_N: nat := 254

  const EXTRA_NUM_PKTS: nat := 1
  const MAX_LOSS: real := 0.9
  const EXTRA_REDUNDANCY: real := 0.05
  const UNKNOWN: real := -1.0

  /** A loss rate, or UNKNOWN when nothing was sent. */
  predicate IsLoss(loss: real) { loss == UNKNOWN || 0.0 <= loss <= 1.0 }

  predicate Moderate(loss: real) { loss != UNKNOWN && loss <= MAX_LOSS }

  function Min(a: nat, b: nat): nat { if a < b then a else b }

  function Ceil(x: real): (r: int)
    ensures r as real - 1.0 < x <= r as real
  {
    -(-x).Floor
  }

  /** k out of every k / q packets arrive when a fraction q gets through. */
  lemma CeilDivides(k: nat, q: real)
    requires 0.0 < q <= 1.0
    ensures var c := Ceil(k as real / q);
      k <= c && Times(c as real, q) >= k as real && Times(c as real, q) < k as real + q
  {
    hide Times;
    var x := k as real / q;
    var c := Ceil(x);
    TimesQuotient(k as real, q);
    TimesAtMost(x, c as real, q);
    TimesLess(c as real, x + 1.0, q);
    TimesNext(x, q);
    if c < k {
      CeilNotNegative(k, q);
      TimesAtMost(q, 1.0, c as real);
      TimesOne(c as real);
    }
  }

  lemma CeilNotNegative(k: nat, q: real)
    requires q > 0.0
    ensures Ceil(k as real / q) >= 0
  {
    if k as real / q < 0.0 {
      TimesLess(k as real / q, 0.0, q);
      TimesQuotient(k as real, q);
      TimesOne(q);
    }
  }

  /** The smallest number of packets of which k get through. */
  lemma Smallest(c: int, d: int, k: nat, q: real)
    requires q > 0.0 && Times(c as real, q) >= k as real && Times(d as real, q) < k as real + q
    ensures d <= c
  {
    hide Times;
    if d > c {
      TimesAtMost(c as real + 1.0, d as real, q);
      TimesNext(c as real, q);
    }
  }

  /** Fewer losses need no more packets. */
  lemma CeilMonotone(k: nat, p: real, q: real)
    requires 0.0 < p <= q <= 1.0
    ensures Ceil(k as real / q) <= Ceil(k as real / p)
  {
    hide Ceil, Times;
    CeilDivides(k, p);
    CeilDivides(k, q);
    TimesAtMost(p, q, Ceil(k as real / p) as real);
    Smallest(Ceil(k as real / p), Ceil(k as real / q), k, q);
  }

  /** Bytes at a rate in 100 kbit/s, in whole microseconds. */
  function PktDuration(size: nat, rate: nat, extraTime: nat): (d: nat)
    requires rate > 0
    ensures d >= extraTime
  {
    var airTime := size as real * 8.0 / (rate as real / 10.0);
    AirTimePositive(size, rate);
    (airTime + extraTime as real).Floor
  }

  lemma AirTimePositive(size: nat, rate: nat)
    requires rate > 0
    ensures size as real * 8.0 / (rate as real / 10.0) >= 0.0
  {
    QuotientNonNegative(size as real * 8.0, rate as real / 10.0);
  }

  /** The air time of size bytes in whole microseconds, rounded down, on top of the extra time. */
  lemma DurationIs(size: nat, rate: nat, extraTime: nat)
    requires rate > 0
    ensures var air := PktDuration(size, rate, extraTime) - extraTime;
      air * rate <= 80 * size < (air + 1) * rate
  {
    hide Times;
    var d := PktDuration(size, rate, extraTime);
    var r := rate as real / 10.0;
    var x := size as real * 8.0 / r;
    TimesQuotient(size as real * 8.0, r);
    var air := d - extraTime;
    assert air as real <= x < air as real + 1.0;
    TimesAtMost(air as real, x, r);
    TimesLess(x, air as real + 1.0, r);
    TenTimes(air, rate);
    TenTimes(air + 1, rate);
  }

  lemma TenTimes(a: int, rate: nat)
    ensures Times(a as real, rate as real / 10.0) * 10.0 == (a * rate) as real
  {}

  /** Lower rates take longer. */
  lemma SlowerIsLonger(size: nat, slow: nat, fast: nat, extraTime: nat)
    requires 0 < slow <= fast
    ensures PktDuration(size, fast, extraTime) <= PktDuration(size, slow, extraTime)
  {
    hide Times;
    var a, b := slow as real / 10.0, fast as real / 10.0;
    var x, y := size as real * 8.0 / a, size as real * 8.0 / b;
    TimesQuotient(size as real * 8.0, a);
    TimesQuotient(size as real * 8.0, b);
    AirTimePositive(size, slow);
    if y > x {
      TimesLess(x, y, b);
      TimesAtMost(a, b, x);
    }
  }

  // ---------------------------------------------------------------------------------
  // A batch of new packets
  // ---------------------------------------------------------------------------------

  /** The share of packets that are expected to get through, less a margin for bursts. */
  function DataShare(loss: real): real { if loss == UNKNOWN then 0.35 else 0.95 - loss }

  /** Truncating a batch to MAX_K packets never makes it longer. */
  lemma TruncatedFits(n: nat, q: real)
    requires 0.0 < q <= 1.0 && Times(n as real, q) >= MAX_K as real + q
    ensures MAX_K <= Ceil(MAX_K as real / q) <= n
  {
    hide Times, Ceil;
    CeilDivides(MAX_K, q);
    Smallest(n, Ceil(MAX_K as real / q), MAX_K, q);
  }

  /** Packets that fit the coherence time. */
  function Fitting(coherenceTime: nat, pktDuration: nat): (most: nat)
    ensures pktDuration > 0 ==> most * pktDuration <= coherenceTime < (most + 1) * pktDuration
  {
    if pktDuration == 0 then 0 else coherenceTime / pktDuration
  }

  /** n is all that fits, or just enough for MAX_K packets to get through. */
  ghost predicate AllOrEnough(loss: real, most: nat, n: nat)
  {
    var q := DataShare(loss);
    n == Min(most, MAX_N) || (MAX_K as real <= n as real * q && (n - 1) as real * q < MAX_K as real)
  }

  /** With a moderate loss rate k packets arrive even without the one in reserve, and with its margin k of them. */
  ghost predicate Arrives(loss: real, k: nat, n: nat)
  {
    && (Moderate(loss) && k > 1 ==> (k + EXTRA_NUM_PKTS) as real <= n as real * (1.0 - loss))
    && (k > 1 ==> k as real <= n as real * DataShare(loss) || n == MAX_N)
  }

  /** One packet more would not get through, even if all that fits were sent, or would leave no reserve. */
  ghost predicate AsManyAsCan(loss: real, most: nat, k: nat, n: nat)
  {
    || k == MAX_K
    || (k + 1) as real > most as real * DataShare(loss)
    || (Moderate(loss) && (k + 1 + EXTRA_NUM_PKTS) as real > n as real * (1.0 - loss))
  }

  /**
   A batch of new packets. ok tells whether the program goes on: it stops when a packet takes no
   time, and with FEC also when not one packet fits the coherence time. Otherwise the batch fits
   the coherence time, and with a moderate known loss rate and more than one packet at least
   k + 1 of its n coded packets are expected to arrive. Without FEC too short a coherence time
   gives an empty batch.
  */
  method ApplyFECForData(useFec: bool, loss: real, coherenceTime: nat, pktDuration: nat)
    returns (ok: bool, k: nat, n: nat)
    requires IsLoss(loss)
    ensures ok <==> 1 <= pktDuration && (useFec ==> pktDuration <= coherenceTime)
    ensures ok && pktDuration > coherenceTime ==> k == n == 0
    ensures ok && pktDuration <= coherenceTime ==>
        1 <= k <= MAX_K && k <= n <= MAX_N && n * pktDuration <= coherenceTime
    ensures ok && !useFec ==> k == n && (n == MAX_K || (n + 1) * pktDuration > coherenceTime)
    ensures ok && useFec ==> Arrives(loss, k, n)
    ensures ok && useFec ==> AllOrEnough(loss, Fitting(coherenceTime, pktDuration), n)
    ensures ok && useFec ==> AsManyAsCan(loss, Fitting(coherenceTime, pktDuration), k, n)
  {
    hide AllOrEnough, AsManyAsCan, Arrives;
    if pktDuration == 0 {
      return false, 0, 0;  // division by zero
    }
    n := coherenceTime / pktDuration;
    ghost var most := n;
    MostFits(n, pktDuration, coherenceTime);
    if !useFec {
      if n > MAX_K {
        n := MAX_K;
      }
      k := n;
      ok := true;
      MulMono(n, most, pktDuration);
      return;
    }
    k, n := WithRedundancy(loss, n);
    ok := k > 0 && k <= MAX_K && n >= k && n <= MAX_N;
    MulMono(n, most, pktDuration);
  }

  /** k packets for at most n0 coded ones, within both limits. */
  method FitLimits(q: real, n0: nat) returns (k: int, n: nat)
    requires q <= 1.0
    ensures k <= MAX_K && k <= n && n <= MAX_N && n <= n0 && (n0 >= 1 ==> n >= 1)
    ensures k > 0 ==> k as real <= n as real * q || n == MAX_N
    ensures k == MAX_K || (k + 1) as real > n0 as real * q
    ensures n == Min(n0, MAX_N) || (MAX_K as real <= n as real * q && (n - 1) as real * q < MAX_K as real)
  {
    hide Ceil, Times;
    n := n0;
    k := Share(n, q);
    FirstChoice(n, q);
    if k > MAX_K {
      k := MAX_K;
      n := Ceil(k as real / q);
    }
    if n > MAX_N {
      n := MAX_N;
    }
  }

  /** One packet fewer than can be expected to arrive, but at least one. */
  method KeepReserve(loss: real, k0: int, n: nat) returns (k: nat)
    requires IsLoss(loss) && k0 <= MAX_K && k0 <= n
    ensures 1 <= k <= MAX_K && (k > 1 ==> k <= k0)
    ensures Moderate(loss) && k > 1 ==> (k + EXTRA_NUM_PKTS) as real <= n as real * (1.0 - loss)
    ensures k >= k0 || (Moderate(loss) && (k + 1 + EXTRA_NUM_PKTS) as real > n as real * (1.0 - loss))
  {
    hide Share;
    var k' := k0;
    if Moderate(loss) {
      var noExtra := Share(n, 1.0 - loss);
      if noExtra - EXTRA_NUM_PKTS < k' {
        k' := noExtra - EXTRA_NUM_PKTS;
      }
    }
    if k' <= 0 {
      k' := 1;
    }
    k := k';
  }

  method WithRedundancy(loss: real, n0: nat) returns (k: nat, n: nat)
    requires IsLoss(loss)
    ensures 1 <= k <= MAX_K && n <= MAX_N && n <= n0 && (k <= n <==> n0 >= 1)
    ensures Arrives(loss, k, n) && AllOrEnough(loss, n0, n) && AsManyAsCan(loss, n0, k, n)
  {
    hide Moderate, AllOrEnough, AsManyAsCan, Arrives;
    var redundancy := if loss == UNKNOWN then 0.6 + EXTRA_REDUNDANCY else loss + EXTRA_REDUNDANCY;
    k, n := ChooseSizes(loss, 1.0 - redundancy, n0);
  }

  method ChooseSizes(loss: real, q: real, n0: nat) returns (k: nat, n: nat)
    requires IsLoss(loss) && q == DataShare(loss) <= 1.0
    ensures 1 <= k <= MAX_K && n <= MAX_N && n <= n0 && (k <= n <==> n0 >= 1)
    ensures Arrives(loss, k, n) && AllOrEnough(loss, n0, n) && AsManyAsCan(loss, n0, k, n)
  {
    hide DataShare, Moderate, AllOrEnough, AsManyAsCan, Arrives;
    var k';
    k', n := FitLimits(q, n0);
    k := KeepReserve(loss, k', n);
    BestChoice(loss, n0, k', k, n);
  }

  lemma BestChoice(loss: real, n0: nat, k0: int, k: nat, n: nat)
    requires k <= MAX_K && (k > 1 ==> k <= k0)
    requires k0 == MAX_K || (k0 + 1) as real > n0 as real * DataShare(loss)
    requires k0 > 0 ==> k0 as real <= n as real * DataShare(loss) || n == MAX_N
    requires Moderate(loss) && k > 1 ==> (k + EXTRA_NUM_PKTS) as real <= n as real * (1.0 - loss)
    requires n == Min(n0, MAX_N) ||
      (MAX_K as real <= n as real * DataShare(loss) && (n - 1) as real * DataShare(loss) < MAX_K as real)
    requires k >= k0 || (Moderate(loss) && (k + 1 + EXTRA_NUM_PKTS) as real > n as real * (1.0 - loss))
    ensures Arrives(loss, k, n) && AllOrEnough(loss, n0, n) && AsManyAsCan(loss, n0, k, n)
  {
    hide Moderate, DataShare;
  }

  /** Packets out of n expected when a fraction q gets through, rounded down. */
  function Share(n: nat, q: real): (r: int)
    ensures r as real <= n as real * q < r as real + 1.0
  {
    (n as real * q).Floor
  }

  lemma ShareIs(n: nat, q: real)
    ensures Share(n, q) as real <= Times(n as real, q)
  {}

  lemma ShareFits(n: nat, q: real)
    requires q <= 1.0
    ensures var k := Share(n, q); k <= n && (k > 0 ==> q > 0.0)
  {
    hide Times, Share;
    ShareIs(n, q);
    TimesAtMost(q, 1.0, n as real);
    TimesOne(n as real);
    if q <= 0.0 {
      TimesAtMost(q, 0.0, n as real);
    }
  }

  lemma TruncatedShare(n: nat, q: real)
    requires 0.0 < q <= 1.0 && Share(n, q) > MAX_K
    ensures MAX_K <= Ceil(MAX_K as real / q) <= n
    ensures MAX_K as real <= Times(Ceil(MAX_K as real / q) as real, q)
    ensures Times((Ceil(MAX_K as real / q) - 1) as real, q) < MAX_K as real
  {
    hide Ceil, Times, Share;
    ShareIs(n, q);
    TruncatedFits(n, q);
    CeilDivides(MAX_K, q);
    TimesNext((Ceil(MAX_K as real / q) - 1) as real, q);
  }

  /** Before the caps: truncating k does not lengthen the batch. */
  lemma FirstChoice(n: nat, q: real)
    requires q <= 1.0
    ensures var k := Share(n, q);
      && k <= n && (k > 0 ==> q > 0.0)
      && (k > MAX_K ==> var c := Ceil(MAX_K as real / q);
              && MAX_K <= c <= n && MAX_K as real <= c as real * q && (c - 1) as real * q < MAX_K as real)
  {
    hide Ceil, Times, Share;
    ShareFits(n, q);
    if Share(n, q) > MAX_K {
      TruncatedShare(n, q);
      TimesIs(Ceil(MAX_K as real / q) as real, q);
      TimesIs((Ceil(MAX_K as real / q) - 1) as real, q);
    }
  }

  lemma MostFits(n: nat, d: nat, t: nat)
    requires 1 <= d && n == t / d
    ensures n * d <= t < (n + 1) * d && (n >= 1 <==> d <= t)
  {}

  lemma MulMono(a: nat, b: nat, d: nat)
    requires a <= b
    ensures a * d <= b * d
  {}

  // ---------------------------------------------------------------------------------
  // A batch sent early
  // ---------------------------------------------------------------------------------

  /** k of n packets get through at fraction q, and with a moderate loss rate even without the packets in reserve. */
  ghost predicate Suffices(k: nat, n: int, q: real, loss: real)
  {
    && n as real * q >= k as real
    && (Moderate(loss) ==> (n - EXTRA_NUM_PKTS) as real * (1.0 - loss) >= k as real)
  }

  function Larger(a: int, b: int): int { if a < b then b else a }

  /** The least number that suffices. */
  function Fewest(k: nat, q: real, loss: real): int
    requires 0.0 < q && IsLoss(loss)
  {
    if Moderate(loss) then Larger(Ceil(k as real / q), Ceil(k as real / (1.0 - loss)) + EXTRA_NUM_PKTS)
    else Ceil(k as real / q)
  }

  lemma CeilLeast(k: nat, q: real, m: int)
    requires 0.0 < q <= 1.0
    ensures m as real * q >= k as real <==> m >= Ceil(k as real / q)
  {
    hide Ceil, Times;
    CeilDivides(k, q);
    TimesIs(m as real, q);
    var c := Ceil(k as real / q);
    if m >= c {
      TimesAtMost(c as real, m as real, q);
    } else {
      TimesAtMost(m as real + 1.0, c as real, q);
      TimesNext(m as real, q);
    }
  }

  lemma LeastSuffices(k: nat, q: real, loss: real, m: int)
    requires 0.0 < q <= 1.0 && IsLoss(loss)
    ensures Suffices(k, m, q, loss) <==> m >= Fewest(k, q, loss)
  {
    hide Ceil;
    CeilLeast(k, q, m);
    if Moderate(loss) {
      CeilLeast(k, 1.0 - loss, m - EXTRA_NUM_PKTS);
    }
  }

  lemma NothingSuffices(k: nat, m: nat, q: real, loss: real)
    requires k > 0 && q <= 0.0
    ensures !Suffices(k, m, q, loss)
  {
    hide Times;
    TimesIs(m as real, q);
    TimesAtMost(q, 0.0, m as real);
    TimesOne(m as real);
  }

  function LateRedundancy(loss: real): real { if loss == UNKNOWN then 0.85 else loss + EXTRA_REDUNDANCY }

  lemma NoExtraIsSmall(k: nat, loss: real)
    requires k < MAX_K && Moderate(loss) && IsLoss(loss)
    ensures Ceil(k as real / (1.0 - loss)) <= 90
  {
    CeilMonotone(k, 0.1, 1.0 - loss);
    CeilDivides(k, 0.1);
  }

  /** The cap on the redundancy keeps the batch below MAX_N. */
  lemma CappedFits(k: nat, q: real)
    requires 0 < k < MAX_K && k as real / (MAX_N - 1) as real <= q <= 1.0
    ensures q > 0.0 && k <= Ceil(k as real / q) <= MAX_N - 1
  {
    hide Times, Ceil;
    var m := MAX_N - 1;
    var p := k as real / m as real;
    assert p > 0.0;
    CeilDivides(k, q);
    TimesQuotient(k as real, m as real);
    TimesIs(p, m as real);
    TimesIs(m as real, p);
    TimesAtMost(p, q, m as real);
    Smallest(m, Ceil(k as real / q), k, q);
  }

  /**
   The loss rate plus a margin decides, and with a moderate known loss rate at least one packet
   more than needed on average is sent.
  */
  method ApplyFECForTimeOut(useFec: bool, loss: real, k: nat) returns (ok: bool, n: nat)
    requires IsLoss(loss)
    ensures ok <==> 0 < k < MAX_K
    ensures ok ==> k <= n <= MAX_N && (!useFec ==> n == k)
    ensures ok && useFec && Moderate(loss) ==> n >= Ceil(k as real / (1.0 - loss)) + EXTRA_NUM_PKTS
    ensures ok && useFec ==> var q := LateShare(loss, k);
        Suffices(k, n, q, loss) && !Suffices(k, n - 1, q, loss)
  {
    hide Ceil, Times;
    if !(0 < k < MAX_K) {
      return false, 0;
    }
    ok := true;
    if !useFec {
      return true, k;
    }
    var redundancy := if loss == UNKNOWN then 0.8 + EXTRA_REDUNDANCY else loss + EXTRA_REDUNDANCY;
    RedundancyRange(k);
    if redundancy > MaxRedundancy(k) {
      redundancy := MaxRedundancy(k);
    }
    var noExtra := -1;
    if Moderate(loss) {
      noExtra := Ceil(k as real / (1.0 - loss));
      NoExtraIsSmall(k, loss);
      CeilDivides(k, 1.0 - loss);
    }
    ghost var q := 1.0 - redundancy;
    assert q == LateShare(loss, k);
    CappedFits(k, q);
    LeastSuffices(k, q, loss, Fewest(k, q, loss));
    LeastSuffices(k, q, loss, Fewest(k, q, loss) - 1);
    n := Ceil(k as real / (1.0 - redundancy));
    if n < noExtra + EXTRA_NUM_PKTS && noExtra + EXTRA_NUM_PKTS <= MAX_N {
      n := noExtra + EXTRA_NUM_PKTS;
    }
    if n > MAX_N {
      n := MAX_N;
    }
  }

  /** The share of packets that are expected to get through, but enough for k of MAX_N - 1. */
  function LateShare(loss: real, k: nat): (q: real)
    ensures q >= k as real / (MAX_N - 1) as real && q >= (if loss == UNKNOWN then 0.15 else 0.95 - loss)
    ensures q == k as real / (MAX_N - 1) as real || q == if loss == UNKNOWN then 0.15 else 0.95 - loss
  {
    var q := 1.0 - LateRedundancy(loss);
    if q < k as real / (MAX_N - 1) as real then k as real / (MAX_N - 1) as real else q
  }

  /** The largest redundancy that keeps k packets within the limit. */
  function MaxRedundancy(k: nat): real { 1.0 - k as real / (MAX_N - 1) as real }

  /** One packet can be spared: the others already deliver k on average. */
  lemma OneToSpare(k: nat, n: nat, loss: real)
    requires 0.0 <= loss < 1.0 && n >= Ceil(k as real / (1.0 - loss)) + EXTRA_NUM_PKTS
    ensures (n - EXTRA_NUM_PKTS) as real * (1.0 - loss) >= k as real
  {
    hide Times, Ceil;
    CeilDivides(k, 1.0 - loss);
    TimesAtMost(Ceil(k as real / (1.0 - loss)) as real, (n - EXTRA_NUM_PKTS) as real, 1.0 - loss);
    TimesIs((n - EXTRA_NUM_PKTS) as real, 1.0 - loss);
  }

  lemma RedundancyRange(k: nat)
    requires 0 < k < MAX_K
    ensures 0.85 < MaxRedundancy(k) <= 1.0
  {}

  // ---------------------------------------------------------------------------------
  // A retransmission
  // ---------------------------------------------------------------------------------

  /**
   As much redundancy as the coherence time allows, and with a moderate loss rate one packet in
   reserve. ok tells whether the program goes on: k packets must fit.
  */
  method ApplyFECForRetransmission(useFec: bool, loss: real, coherenceTime: nat, pktDuration: nat, k: nat)
    returns (ok: bool, n: nat)
    requires IsLoss(loss)
    ensures ok <==> 1 <= pktDuration && 0 < k <= MostPkts(coherenceTime, pktDuration) && k <= MAX_K
    ensures ok ==> k <= n <= MAX_N && n * pktDuration <= coherenceTime && (!useFec ==> n == k)
    ensures ok && useFec && Moderate(loss)
            && Ceil(k as real / (1.0 - loss)) + EXTRA_NUM_PKTS <= MostPkts(coherenceTime, pktDuration) ==>
              n >= Ceil(k as real / (1.0 - loss)) + EXTRA_NUM_PKTS
    ensures ok && useFec ==> var q := if loss == UNKNOWN then 0.15 else 0.95 - loss;
        && (n == MostPkts(coherenceTime, pktDuration) || Suffices(k, n, q, loss))
        && !Suffices(k, n - 1, q, loss)
  {
    hide Ceil, Times;
    if pktDuration == 0 {
      return false, 0;  // division by zero
    }
    var maxN := Min(coherenceTime / pktDuration, MAX_N);
    MostFits(coherenceTime / pktDuration, pktDuration, coherenceTime);
    MulMono(maxN, coherenceTime / pktDuration, pktDuration);
    ok := k > 0 && k <= maxN && k <= MAX_K;
    if !ok {
      return false, 0;
    }
    if !useFec {
      MulMono(k, maxN, pktDuration);
      return true, k;
    }
    var redundancy := if loss == UNKNOWN then 0.8 + EXTRA_REDUNDANCY else loss + EXTRA_REDUNDANCY;
    var noExtra := -1;
    if Moderate(loss) {
      noExtra := Ceil(k as real / (1.0 - loss));
    }
    var n' := maxN as int;
    ghost var q := 1.0 - redundancy;
    if redundancy < 1.0 {
      n' := Ceil(k as real / (1.0 - redundancy));
      CeilDivides(k, q);
    }
    if n' < noExtra + EXTRA_NUM_PKTS && noExtra + EXTRA_NUM_PKTS <= maxN {
      n' := noExtra + EXTRA_NUM_PKTS;
    }
    if n' > maxN {
      n' := maxN;
    }
    n := n';
    MulMono(n, maxN, pktDuration);
    if q > 0.0 {
      CappedLeast(k, q, loss, maxN, n);
    } else {
      NothingSuffices(k, n - 1, q, loss);
    }
  }

  /** What the cap leaves of the least number. */
  lemma CappedLeast(k: nat, q: real, loss: real, maxN: nat, n: int)
    requires 0.0 < q <= 1.0 && IsLoss(loss) && (Moderate(loss) ==> q <= 1.0 - loss) && k > 0
    requires var c := Ceil(k as real / q);
      var e := if Moderate(loss) then Ceil(k as real / (1.0 - loss)) + EXTRA_NUM_PKTS else 0;
      var n' := if c < e && e <= maxN then e else c;
      n == if n' > maxN then maxN else n'
    ensures (n == maxN || Suffices(k, n, q, loss)) && !Suffices(k, n - 1, q, loss)
  {
    hide Ceil, Suffices;
    if Moderate(loss) {
      CeilMonotone(k, q, 1.0 - loss);
    }
    LeastSuffices(k, q, loss, n);
    LeastSuffices(k, q, loss, n - 1);
  }

  /** Packets that fit the coherence time and the code. */
  function MostPkts(coherenceTime: nat, pktDuration: nat): nat
  {
    Min(Fitting(coherenceTime, pktDuration), MAX_N)
  }
}
