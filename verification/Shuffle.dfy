/** shuffle: every received original packet moves to its own slot, in place, with its index. */
module Shuffle {
  import opened Linear

  /** No index below k occurs twice. Repeated parity indices are not looked for here. */
  predicate NoRepeatBelow(index: seq<nat>, k: nat)
  {
    forall i, j | 0 <= i < j < |index| && index[i] == index[j] :: index[i] >= k
  }

  predicate DistinctIndices(index: seq<nat>)
  {
    forall i, j | 0 <= i < j < |index| :: index[i] != index[j]
  }

  /** Originals sit at their own position. */
  predicate Settled(index: seq<nat>, k: nat)
  {
    forall i | 0 <= i < |index| && index[i] < k :: index[i] == i
  }

  function FixedPoints(index: seq<nat>): (n: nat)
    ensures n <= |index|
  {
    if index == [] then 0
    else FixedPoints(index[..|index| - 1]) + if index[|index| - 1] == |index| - 1 then 1 else 0
  }

  lemma {:induction false} FixedUpdate(index: seq<nat>, p: nat, v: nat)
    requires p < |index| && index[p] != p
    ensures FixedPoints(index[p := v]) == FixedPoints(index) + if v == p then 1 else 0
  {
    var n := |index| - 1;
    if p == n {
      assert index[p := v][..n] == index[..n];
    } else {
      FixedUpdate(index[..n], p, v);
      assert index[p := v][..n] == index[..n][p := v];
    }
  }

  /** Each swap puts one more index in its place and disturbs none that is already there. */
  lemma SwapFixes(index: seq<nat>, i: nat)
    requires i < |index| && index[i] < |index| && index[i] != i && index[index[i]] != index[i]
    ensures FixedPoints(Swap(index, i, index[i])) > FixedPoints(index)
  {
    hide FixedPoints;
    var c := index[i];
    FixedUpdate(index, i, index[c]);
    FixedUpdate(index[i := index[c]], c, c);
  }

  lemma SwapKeeps(index: seq<nat>, i: nat, j: nat, k: nat)
    requires i < |index| && j < |index|
    ensures NoRepeatBelow(Swap(index, i, j), k) <==> NoRepeatBelow(index, k)
    ensures DistinctIndices(Swap(index, i, j)) <==> DistinctIndices(index)
  {
    var other := Swap(index, i, j);
    assert Swap(other, i, j) == index;
    SwapKeepsOneWay(index, i, j, k);
    SwapKeepsOneWay(other, i, j, k);
  }

  lemma SwapKeepsOneWay(index: seq<nat>, i: nat, j: nat, k: nat)
    requires i < |index| && j < |index|
    ensures NoRepeatBelow(index, k) ==> NoRepeatBelow(Swap(index, i, j), k)
    ensures DistinctIndices(index) ==> DistinctIndices(Swap(index, i, j))
  {}

  /** now[i] is before[perm[i]] and perm is one-to-one. */
  ghost predicate Rearranged<T>(before: seq<T>, now: seq<T>, perm: seq<nat>)
  {
    && |before| == |now| == |perm|
    && (forall i | 0 <= i < |perm| :: perm[i] < |perm|)
    && DistinctIndices(perm)
    && forall i | 0 <= i < |perm| :: now[i] == before[perm[i]]
  }

  lemma RearrangedSwap<T>(before: seq<T>, now: seq<T>, perm: seq<nat>, i: nat, j: nat)
    requires Rearranged(before, now, perm) && i < |perm| && j < |perm|
    ensures Rearranged(before, Swap(now, i, j), Swap(perm, i, j))
  {
    SwapKeeps(perm, i, j, 0);
  }

  method SwapEntries<T>(a: array<T>, i: nat, j: nat, k: nat)
    requires i < k <= a.Length && j < k
    modifies a
    ensures a[..k] == Swap(old(a[..k]), i, j) && a[k..] == old(a[k..])
  {
    a[i], a[j] := a[j], a[i];
  }

  /** Where the swaps have got to: one rearrangement of both lists, with the same repetitions as before. */
  ghost predicate Shuffled<T>(index0: seq<nat>, index: seq<nat>, pkt0: seq<T>, pkt: seq<T>, perm: seq<nat>, k: nat)
  {
    && Rearranged(index0, index, perm) && Rearranged(pkt0, pkt, perm)
    && (NoRepeatBelow(index, k) <==> NoRepeatBelow(index0, k))
    && (DistinctIndices(index) <==> DistinctIndices(index0))
    && multiset(index) == multiset(index0) && multiset(pkt) == multiset(pkt0)
  }

  lemma ShuffledStart<T>(index: seq<nat>, pkt: seq<T>, k: nat)
    requires |index| == |pkt|
    ensures Shuffled(index, index, pkt, pkt, seq(|index|, i => i), k)
  {
    hide NoRepeatBelow, DistinctIndices, Rearranged;
    RearrangedStart(index);
    RearrangedStart(pkt);
  }

  lemma ShuffledSwap<T>(index0: seq<nat>, index: seq<nat>, pkt0: seq<T>, pkt: seq<T>, perm: seq<nat>, k: nat, i: nat,
                        j: nat)
    requires Shuffled(index0, index, pkt0, pkt, perm, k) && |index| == |pkt| == |perm| && i < |index| && j < |index|
    ensures Shuffled(index0, Swap(index, i, j), pkt0, Swap(pkt, i, j), Swap(perm, i, j), k)
  {
    hide NoRepeatBelow, DistinctIndices, Rearranged, Swap;
    SwapKeeps(index, i, j, k);
    RearrangedSwap(index0, index, perm, i, j);
    RearrangedSwap(pkt0, pkt, perm, i, j);
    SwapMultiset(index, i, j);
    SwapMultiset(pkt, i, j);
  }

  lemma SwapMultiset<T>(s: seq<T>, i: nat, j: nat)
    requires i < |s| && j < |s|
    ensures multiset(Swap(s, i, j)) == multiset(s)
  {}

  method Shuffle<T>(pkt: array<T>, index: array<nat>, k: nat) returns (error: nat, ghost perm: seq<nat>)
    requires k <= pkt.Length && k <= index.Length && pkt as object != index
    modifies pkt, index
    ensures error == 0 || error == 1
    ensures error == 0 <==> NoRepeatBelow(old(index[..k]), k)
    ensures error == 0 ==> Settled(index[..k], k)
    ensures Shuffled(old(index[..k]), index[..k], old(pkt[..k]), pkt[..k], perm, k)
    ensures pkt[k..] == old(pkt[k..]) && index[k..] == old(index[k..])
  {
    hide FixedPoints, Swap, Shuffled, NoRepeatBelow, Settled;
    perm := seq(k, i => i);
    ShuffledStart(index[..k], pkt[..k], k);
    SettledEmpty(k);
    var i := 0;
    while i < k
      invariant i <= k && Settled(index[..i], k) && |perm| == k
      invariant Shuffled(old(index[..k]), index[..k], old(pkt[..k]), pkt[..k], perm, k)
      invariant pkt[k..] == old(pkt[k..]) && index[k..] == old(index[k..])
      decreases k - FixedPoints(index[..k]), k - i
    {
      if index[i] >= k || index[i] == i {
        assert index[..i + 1][..i] == index[..i];
        SettledNext(index[..i + 1], i, k);
        i := i + 1;
      } else {
        var c := index[i];
        ghost var before := index[..k];
        if index[c] == c {
          RepeatFound(before, i, c, k);
          SameRepeats(old(index[..k]), before, old(pkt[..k]), pkt[..k], perm, k);
          return 1, perm;
        }
        SwapFixes(before, i);
        ShuffledSwap(old(index[..k]), before, old(pkt[..k]), pkt[..k], perm, k, i, c);
        assert index[..i] == before[..i];
        SettledSwap(before, i, k);
        SwapEntries(index, i, c, k);
        assert index[..i] == index[..k][..i];
        SwapEntries(pkt, i, c, k);
        perm := Swap(perm, i, c);
      }
    }
    SettledHasNoRepeat(index[..k], k);
    SameRepeats(old(index[..k]), index[..k], old(pkt[..k]), pkt[..k], perm, k);
    error := 0;
  }

  lemma SettledEmpty(k: nat)
    ensures Settled([], k)
  {}

  lemma SettledNext(index: seq<nat>, i: nat, k: nat)
    requires |index| == i + 1 && Settled(index[..i], k) && (index[i] >= k || index[i] == i)
    ensures Settled(index, k)
  {}

  lemma SameRepeats<T>(index0: seq<nat>, index: seq<nat>, pkt0: seq<T>, pkt: seq<T>, perm: seq<nat>, k: nat)
    requires Shuffled(index0, index, pkt0, pkt, perm, k)
    ensures NoRepeatBelow(index, k) <==> NoRepeatBelow(index0, k)
  {}

  lemma RearrangedStart<T>(s: seq<T>)
    ensures Rearranged(s, s, seq(|s|, i => i))
  {}

  lemma SettledSwap(index: seq<nat>, i: nat, k: nat)
    requires i < |index| && index[i] < |index| && Settled(index[..i], k)
    ensures Settled(Swap(index, i, index[i])[..i], k)
  {}

  lemma RepeatFound(index: seq<nat>, i: nat, c: nat, k: nat)
    requires i < |index| && c < |index| && i != c && index[i] == index[c] == c < k
    ensures !NoRepeatBelow(index, k)
  {}

  lemma SettledHasNoRepeat(index: seq<nat>, k: nat)
    requires Settled(index, k)
    ensures NoRepeatBelow(index, k)
  {}
}
