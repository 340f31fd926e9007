/**
 The tier resolver: a pure map from cumulative CP earned to a tier name,
 driven by an ordered threshold table. The table is scanned in table order
 and every entry whose threshold the total reaches replaces the candidate,
 so the answer is the LAST matching entry; with no match the first entry
 is the floor tier.
 */
module Tiers {

  /** One row of the tier table: a name and its inclusive CP threshold. */
  datatype TierEntry = TierEntry(name: string, min_cp: int)

  /** True iff the total `cp` reaches the threshold of `t`. */
  predicate Reaches(t: TierEntry, cp: int) {
    cp >= t.min_cp
  }

  /** Thresholds are listed in ascending order. */
  predicate Ascending(tiers: seq<TierEntry>) {
    forall i, j :: 0 <= i < j < |tiers| ==> tiers[i].min_cp <= tiers[j].min_cp
  }

  /**
   Reference definition: the index of the last entry (in table order) whose
   threshold `cp` reaches, or -1 when no entry matches. It is defined from
   the end of the table, independently of the forward scan the resolver uses.
   */
  function LastMatch(tiers: seq<TierEntry>, cp: int): (r: int)
    ensures -1 <= r < |tiers|
    ensures r >= 0 ==> Reaches(tiers[r], cp)
    ensures forall j :: r < j < |tiers| ==> !Reaches(tiers[j], cp)
  {
    if |tiers| == 0 then -1
    else if Reaches(tiers[|tiers| - 1], cp) then |tiers| - 1
    else LastMatch(tiers[..|tiers| - 1], cp)
  }

  /**
   The resolver's loop over the table from position `k` on: `acc` is the
   candidate tier so far, replaced by every entry the total reaches.
   */
  function TierScan(tiers: seq<TierEntry>, cp: int, k: nat, acc: string): (r: string)
    requires k <= |tiers|
    ensures r == acc || exists i :: k <= i < |tiers| && Reaches(tiers[i], cp) && r == tiers[i].name
    decreases |tiers| - k
  {
    if k == |tiers| then acc
    else TierScan(tiers, cp, k + 1, if Reaches(tiers[k], cp) then tiers[k].name else acc)
  }

  /** The scan from `k` ends on the last match when that lies at or after `k`, else keeps `acc`. */
  lemma {:induction false} TierScanIsLastMatch(tiers: seq<TierEntry>, cp: int, k: nat, acc: string)
    requires k <= |tiers|
    ensures LastMatch(tiers, cp) >= k ==> TierScan(tiers, cp, k, acc) == tiers[LastMatch(tiers, cp)].name
    ensures LastMatch(tiers, cp) < k ==> TierScan(tiers, cp, k, acc) == acc
    decreases |tiers| - k
  {
    if k < |tiers| {
      var acc' := if Reaches(tiers[k], cp) then tiers[k].name else acc;
      TierScanIsLastMatch(tiers, cp, k + 1, acc');
    }
  }

  /**
   The tier for cumulative total `cp`: the name of the last entry whose
   threshold `cp` reaches (inclusive), or the first entry's name if none.
   */
  function CalculateTier(tiers: seq<TierEntry>, cp: int): (r: string)
    requires |tiers| > 0
    ensures LastMatch(tiers, cp) >= 0 ==> r == tiers[LastMatch(tiers, cp)].name
    ensures LastMatch(tiers, cp) < 0 ==> r == tiers[0].name
    ensures exists i :: 0 <= i < |tiers| && r == tiers[i].name
  {
    TierScanIsLastMatch(tiers, cp, 0, tiers[0].name);
    TierScan(tiers, cp, 0, tiers[0].name)
  }

  /** The position in the table of the tier `CalculateTier` picks. */
  function TierRank(tiers: seq<TierEntry>, cp: int): (r: nat)
    requires |tiers| > 0
    ensures r < |tiers|
    ensures CalculateTier(tiers, cp) == tiers[r].name
  {
    var m := LastMatch(tiers, cp);
    if m < 0 then 0 else m
  }

  /**
   The resolver is monotone: a larger total never selects an earlier table
   position, and on an ascending table never a lower threshold.
   */
  lemma TierRankMonotone(tiers: seq<TierEntry>, cp1: int, cp2: int)
    requires |tiers| > 0
    requires cp1 <= cp2
    ensures TierRank(tiers, cp1) <= TierRank(tiers, cp2)
    ensures Ascending(tiers) ==> tiers[TierRank(tiers, cp1)].min_cp <= tiers[TierRank(tiers, cp2)].min_cp
  {
    var m1 := LastMatch(tiers, cp1);
    if m1 >= 0 {
      assert Reaches(tiers[m1], cp2);
    }
  }

  /**
   On an ascending table the selected tier is the highest threshold not
   exceeding `cp`: every entry up to it is reached and none after it.
   */
  lemma AscendingSelectsHighestReached(tiers: seq<TierEntry>, cp: int)
    requires |tiers| > 0
    requires Ascending(tiers)
    requires Reaches(tiers[0], cp)
    ensures forall j :: 0 <= j <= TierRank(tiers, cp) ==> Reaches(tiers[j], cp)
    ensures forall j :: TierRank(tiers, cp) < j < |tiers| ==> !Reaches(tiers[j], cp)
  {
  }

  /** The threshold is inclusive: a total equal to an entry's threshold selects that entry or a later one. */
  lemma ThresholdInclusive(tiers: seq<TierEntry>, i: nat)
    requires i < |tiers|
    ensures TierRank(tiers, tiers[i].min_cp) >= i
  {
    assert Reaches(tiers[i], tiers[i].min_cp);
  }
}
