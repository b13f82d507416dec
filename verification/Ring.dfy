/** How a ring of BUF_SIZE slots holds the last BUF_SIZE entries of an unbounded log. */
module Ring {
  import opened SendWindow

  /** i is one of the last BUF_SIZE entries of a log of this length. */
  predicate Recent(i: nat, length: nat) { i < length <= i + BUF_SIZE }

  ghost predicate Holds(slots: seq<Slot>, log: seq<Slot>, cfg: Config)
  {
    && |slots| == BUF_SIZE
    && (forall i: nat | Recent(i, |log|) :: slots[i % BUF_SIZE] == log[i])
    && forall p | |log| <= p < BUF_SIZE :: slots[p] == BlankSlot(cfg)
  }

  /** Two logical indices less than BUF_SIZE apart never share a ring position. */
  lemma DifferentPositions(i: nat, j: nat)
    requires i < j < i + BUF_SIZE
    ensures i % BUF_SIZE != j % BUF_SIZE
  {}

  lemma HoldsUpdate(slots: seq<Slot>, log: seq<Slot>, cfg: Config, i: nat, v: Slot)
    requires Holds(slots, log, cfg) && Recent(i, |log|)
    ensures Holds(slots[i % BUF_SIZE := v], log[i := v], cfg)
  {
    var slots', log' := slots[i % BUF_SIZE := v], log[i := v];
    forall j: nat | Recent(j, |log'|) ensures slots'[j % BUF_SIZE] == log'[j] {
      if j < i { DifferentPositions(j, i); } else if i < j { DifferentPositions(i, j); }
    }
  }

  /** The slot behind the tail is free unless the window is full, and shows what was there before. */
  lemma TailIsFree(slots: seq<Slot>, log: seq<Slot>, cfg: Config, head: nat)
    requires Holds(slots, log, cfg) && head <= |log| < head + BUF_SIZE
    requires forall i | 0 <= i < head :: log[i].status.Empty?
    ensures slots[|log| % BUF_SIZE] == Leftover(log, |log|, cfg)
    ensures slots[|log| % BUF_SIZE].status.Empty?
  {
    if |log| >= BUF_SIZE {
      var i := |log| - BUF_SIZE;
      assert i % BUF_SIZE == |log| % BUF_SIZE;
      assert slots[i % BUF_SIZE] == log[i];
    }
  }

  lemma HoldsAppend(slots: seq<Slot>, log: seq<Slot>, cfg: Config, v: Slot)
    requires Holds(slots, log, cfg)
    ensures Holds(slots[|log| % BUF_SIZE := v], log + [v], cfg)
  {
    var slots', log' := slots[|log| % BUF_SIZE := v], log + [v];
    forall j: nat | Recent(j, |log'|) ensures slots'[j % BUF_SIZE] == log'[j] {
      if j < |log| { DifferentPositions(j, |log|); }
    }
  }

  /** The entry of the log that a ring position shows: the last one that was stored there. */
  function Latest(i: nat, length: nat): (j: nat)
    requires i < length
    ensures i <= j && Recent(j, length) && j % BUF_SIZE == i % BUF_SIZE
  {
    i + BUF_SIZE * ((length - 1 - i) / BUF_SIZE)
  }

  /** A ring position still shows entry i exactly as long as i is recent. */
  lemma LatestIsSelf(i: nat, length: nat)
    requires i < length
    ensures Latest(i, length) == i <==> Recent(i, length)
  {}

  lemma PositionShowsLatest(slots: seq<Slot>, log: seq<Slot>, cfg: Config, i: nat)
    requires Holds(slots, log, cfg) && i < |log|
    ensures slots[i % BUF_SIZE] == log[Latest(i, |log|)]
  {
    assert Recent(Latest(i, |log|), |log|);
  }
}
