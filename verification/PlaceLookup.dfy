/** The look-up by place: what the front antenna saw when it was where the back antenna is now. */
module PlaceLookup {
  import opened Packets
  import opened LossRecords
  import opened Reals
  import Redundancy
  import ScoutRate

  /** Some record lies in the closed interval that is asked for, or around it. */
  predicate Hits(records: seq<PacketInfo>, start: int, end: int)
  {
    records != [] && records[0].timer <= end && start <= records[|records| - 1].timer
  }

  /** How long ago the front antenna was here, in nanoseconds. */
  function Delay(antennaDist: real, speed: real): int
    requires speed > 0.0
  {
    (antennaDist / speed * 1_000_000_000.0).Floor
  }

  /** The way between the antennas, driven at that speed, rounded down to a nanosecond. */
  lemma DelayIs(antennaDist: real, speed: real)
    requires speed > 0.0
    ensures var d := Delay(antennaDist, speed) as real;
      d * speed <= antennaDist * 1_000_000_000.0 < (d + 1.0) * speed
  {
    hide Times;
    var x := antennaDist / speed;
    var y := x * 1_000_000_000.0;
    var d := Delay(antennaDist, speed) as real;
    TimesQuotient(antennaDist, speed);
    assert Times(y, speed) == Times(x, speed) * 1_000_000_000.0 by { TimesScaled(x, 1_000_000_000.0, speed); }
    assert d <= y < d + 1.0;
    TimesAtMost(d, y, speed);
    TimesLess(y, d + 1.0, speed);
    TimesIs(d, speed);
    TimesIs(d + 1.0, speed);
  }

  /** The loss rates around time `at`, or none known when the car stands or the records do not reach there. */
  method FrontLosses(front: FeedbackRecords, moving: bool, at: int, half: nat) returns (losses: seq<real>)
    modifies front`rateTable
    ensures |losses| == |RATES|
    ensures forall i | 0 <= i < |RATES| :: Redundancy.IsLoss(losses[i]) && losses[i] ==
              if moving && Hits(front.records, at - half, at + half)
              then Count(Between(front.records, at - half, at + half), RATES[i]).Loss() else Redundancy.UNKNOWN
  {
    hide Count, Between, RateInfo.Loss, RATES;
    var ok, lossArr := false, [];
    if moving {
      ok, lossArr := front.CalcLossRates(at - half, at + half, RATES, []);
    }
    losses := if ok then lossArr else seq(|RATES|, _ => Redundancy.UNKNOWN);
  }

  /** Loss rates by place from the front antenna, and the rates worth trying from the back one. */
  method LookUp(front: FeedbackRecords, back: FeedbackRecords, antennaDist: real, speed: real, frontHalf: nat,
                backWindow: nat, now: int)
    returns (lookup: ScoutRate.Lookup)
    requires front != back
    modifies front`rateTable, back`rateTable
    ensures lookup.Valid()
    ensures var at := if speed > 0.0 then now - Delay(antennaDist, speed) else now;
      forall i | 0 <= i < |RATES| :: lookup.losses[i] ==
        if speed > 0.0 && Hits(front.records, at - frontHalf, at + frontHalf)
        then Count(Between(front.records, at - frontHalf, at + frontHalf), RATES[i]).Loss() else Redundancy.UNKNOWN
    ensures !Hits(back.records, now - backWindow, now) ==> lookup.feasible == RATES
    ensures Hits(back.records, now - backWindow, now) ==> Rising(lookup.feasible) && forall r: nat ::
              r in lookup.feasible <==>
                r in back.rateTable && Promising(Count(Between(back.records, now - backWindow, now), r))
  {
    hide Count, Between, RateInfo.Loss, RATES, Promising, Rising, Delay;
    var at := if speed > 0.0 then now - Delay(antennaDist, speed) else now;
    var losses := FrontLosses(front, speed > 0.0, at, frontHalf);
    var ok, rates := back.FindSuccessRates(now - backWindow, now, false);
    lookup := ScoutRate.Lookup(losses, if ok then rates else RATES);
  }

  /** The combination of all loss rates, with the look-up by place for the versions that use one. */
  method CombineByPlace(rateMaker: ScoutRate.ScoutRateAdaptation, front: FeedbackRecords, back: FeedbackRecords,
                        antennaDist: real, speed: real, frontHalf: nat, backWindow: nat, now: int)
    requires front != back && rateMaker.Valid()
    modifies front`rateTable, back`rateTable
    modifies rateMaker`lossScout, rateMaker`lossCombine, rateMaker`feasible
    ensures rateMaker.Valid()
    ensures forall r | r in RATES ::
              rateMaker.lossCombine[r] == ScoutRate.CombinedLoss(rateMaker.version, rateMaker.lossFront[r],
                                                                 rateMaker.lossBack[r], rateMaker.lossScout[r])
    ensures ScoutRate.LocationBased(rateMaker.version) ==>
      var at := if speed > 0.0 then now - Delay(antennaDist, speed) else now;
      forall i | 0 <= i < |RATES| :: rateMaker.lossScout[RATES[i]] ==
        if speed > 0.0 && Hits(front.records, at - frontHalf, at + frontHalf)
        then Count(Between(front.records, at - frontHalf, at + frontHalf), RATES[i]).Loss() else Redundancy.UNKNOWN
    ensures ScoutRate.LocationBased(rateMaker.version) && !Hits(back.records, now - backWindow, now) ==>
      rateMaker.feasible == RATES
    ensures ScoutRate.LocationBased(rateMaker.version) && Hits(back.records, now - backWindow, now) ==>
      forall r: nat :: r in rateMaker.feasible <==>
        r in back.rateTable && Promising(Count(Between(back.records, now - backWindow, now), r))
  {
    hide Count, Between, RateInfo.Loss, RATES, Promising, Rising, Delay, ScoutRate.LossMap, ScoutRate.CombinedLoss;
    hide Hits;
    var lookup := ScoutRate.Lookup(seq(|RATES|, _ => Redundancy.UNKNOWN), RATES);
    if ScoutRate.LocationBased(rateMaker.version) {
      lookup := LookUp(front, back, antennaDist, speed, frontHalf, backWindow, now);
    }
    rateMaker.CalcLossRatesAfterCombine(lookup);
  }
}
