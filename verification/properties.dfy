/**
 Properties of the ledger over single calls and over arbitrary sequences of
 calls: the balance is reconstructible from the event log, solvency and the
 counter range are kept, the log is append-only, the tier check is
 idempotent, and the interplay of the manual override with later calls.
 */
module LedgerProperties {
  import opened Tiers
  import opened Records
  import opened Ledger

  /** A caller-facing call against the store. */
  datatype Op =
    | AwardOp(id: CharId, amount: int, reason: string)
    | SpendOp(id: CharId, amount: int, reason: string)
    | TickOp(id: CharId)
    | SetTierOp(id: CharId, tier: string)

  /** The store after one call; a call that fails leaves the store as it was. */
  function Apply(cfg: Config, store: Store, op: Op): Store
    requires cfg.Valid()
  {
    match op
    case AwardOp(id, amount, reason) =>
      (match AwardCP(cfg, store, id, amount, reason) case Ok(s) => s.store case Err(_) => store)
    case SpendOp(id, amount, reason) =>
      (match SpendCP(cfg, store, id, amount, reason) case Ok(s) => s.store case Err(_) => store)
    case TickOp(id) =>
      (match TickResponse(cfg, store, id) case Ok(s) => s.store case Err(_) => store)
    case SetTierOp(id, tier) => SetTier(store, id, tier)
  }

  /** The store after a sequence of calls, in order. */
  function Replay(cfg: Config, store: Store, ops: seq<Op>): Store
    requires cfg.Valid()
    decreases |ops|
  {
    if |ops| == 0 then store else Replay(cfg, Apply(cfg, store, ops[0]), ops[1..])
  }

  /** A store in which every character is freshly created. */
  predicate AllNew(store: Store) {
    forall k :: k in store ==> store[k] == NewRecord()
  }

  predicate AllReconciled(store: Store) {
    forall k :: k in store ==> Reconciled(store[k])
  }

  predicate AllSolvent(store: Store) {
    forall k :: k in store ==> Solvent(store[k])
  }

  /** Every activity counter lies in `[0, cycle length)`. */
  predicate AllCountersInRange(cfg: Config, store: Store) {
    forall k :: k in store ==> 0 <= store[k].response_count < cfg.spark_cycle_size
  }

  /** Awards never take CP away. */
  predicate NonNegativeAwards(ops: seq<Op>) {
    forall i :: 0 <= i < |ops| && ops[i].AwardOp? ==> ops[i].amount >= 0
  }

  // ---------------------------------------------------------------------
  // The tier check
  // ---------------------------------------------------------------------

  /** Running the tier check a second time straight after the first changes nothing and logs nothing. */
  lemma UpdateTierIdempotent(cfg: Config, store: Store, id: CharId)
    requires cfg.Valid()
    ensures UpdateTier(cfg, UpdateTier(cfg, store, id), id) == UpdateTier(cfg, store, id)
    ensures id in store ==> |UpdateTier(cfg, store, id)[id].events| <= |store[id].events| + 1
  {
  }

  // ---------------------------------------------------------------------
  // Failures change nothing
  // ---------------------------------------------------------------------

  /** A spend the balance cannot cover, or against a missing character, leaves the store untouched. */
  lemma FailedSpendChangesNothing(cfg: Config, store: Store, id: CharId, amount: int, reason: string)
    requires cfg.Valid()
    requires id !in store || store[id].Available() < amount
    ensures SpendCP(cfg, store, id, amount, reason).Err?
    ensures Apply(cfg, store, SpendOp(id, amount, reason)) == store
  {
  }

  /** Every call against a missing character fails, or for the manual override is ignored, and changes nothing. */
  lemma MissingCharacterChangesNothing(cfg: Config, store: Store, op: Op)
    requires cfg.Valid()
    requires op.id !in store
    ensures Apply(cfg, store, op) == store
    ensures op.AwardOp? ==> AwardCP(cfg, store, op.id, op.amount, op.reason) == Err(NotFound(op.id))
    ensures op.SpendOp? ==> SpendCP(cfg, store, op.id, op.amount, op.reason) == Err(NotFound(op.id))
    ensures op.TickOp? ==> TickResponse(cfg, store, op.id) == Err(NotFound(op.id))
  {
  }

  // ---------------------------------------------------------------------
  // Ledger reconstruction: the balance is the sum of the logged deltas
  // ---------------------------------------------------------------------

  /** Tier notes carry no delta. */
  lemma TierNotesSumZero(cfg: Config, stored: string, total: int)
    requires cfg.Valid()
    ensures DeltaSum(TierNotes(cfg, stored, total)) == 0
  {
  }

  /** An award moves the balance by exactly the delta it logs. */
  lemma AwardReconciles(cfg: Config, rec: Record, amount: int, reason: string)
    requires cfg.Valid()
    requires Reconciled(rec)
    ensures Reconciled(AwardRecord(cfg, rec, amount, reason))
  {
    var notes := TierNotes(cfg, rec.tier, rec.cp_total + amount);
    TierNotesSumZero(cfg, rec.tier, rec.cp_total + amount);
    DeltaSumAppend(rec.events, notes);
    DeltaSumAppend(rec.events + notes, [Award(reason, amount)]);
    assert [Award(reason, amount)][..0] == [];
  }

  /** A successful spend moves the balance by exactly the delta it logs. */
  lemma SpendReconciles(cfg: Config, rec: Record, amount: int, reason: string)
    requires cfg.Valid()
    requires Reconciled(rec)
    ensures SpendRecord(cfg, rec, amount, reason).Ok? ==> Reconciled(SpendRecord(cfg, rec, amount, reason).value)
  {
    if SpendRecord(cfg, rec, amount, reason).Ok? {
      var notes := TierNotes(cfg, rec.tier, rec.cp_total);
      TierNotesSumZero(cfg, rec.tier, rec.cp_total);
      DeltaSumAppend(rec.events, notes);
      DeltaSumAppend(rec.events + notes, [Spend(reason, -amount)]);
      assert [Spend(reason, -amount)][..0] == [];
    }
  }

  /** A tick moves the balance by exactly the cycle award it logs, if any. */
  lemma TickReconciles(cfg: Config, rec: Record)
    requires cfg.Valid()
    requires Reconciled(rec)
    ensures Reconciled(TickRecord(cfg, rec).0)
  {
    var (t, res) := TickRecord(cfg, rec);
    if res.cycle_complete {
      var award := [Award(CycleReason, cfg.cp_award_per_cycle)];
      var notes := TierNotes(cfg, rec.tier, t.cp_total);
      TierNotesSumZero(cfg, rec.tier, t.cp_total);
      DeltaSumAppend(rec.events, award);
      DeltaSumAppend(rec.events + award, notes);
      assert award[..0] == [];
    }
  }

  /** One call keeps every record's balance equal to the sum of its logged deltas. */
  lemma ApplyReconciles(cfg: Config, store: Store, op: Op)
    requires cfg.Valid()
    requires AllReconciled(store)
    ensures AllReconciled(Apply(cfg, store, op))
  {
    if op.id in store {
      var rec := store[op.id];
      match op
      case AwardOp(id, amount, reason) => AwardReconciles(cfg, rec, amount, reason);
      case SpendOp(id, amount, reason) => SpendReconciles(cfg, rec, amount, reason);
      case TickOp(id) => TickReconciles(cfg, rec);
      case SetTierOp(id, tier) =>
    }
  }

  /**
   From a store whose balances match their logs, after any sequence of
   calls, each character's available CP still equals the sum of the deltas
   of its award and spend events.
   */
  lemma {:induction false} LedgerReconstruction(cfg: Config, store: Store, ops: seq<Op>)
    requires cfg.Valid()
    requires AllReconciled(store)
    ensures AllReconciled(Replay(cfg, store, ops))
    decreases |ops|
  {
    if |ops| > 0 {
      ApplyReconciles(cfg, store, ops[0]);
      LedgerReconstruction(cfg, Apply(cfg, store, ops[0]), ops[1..]);
    }
  }

  /**
   Starting from freshly created characters, after any sequence of calls,
   each character's available CP equals the sum of its logged deltas.
   */
  lemma LedgerReconstructionFromNew(cfg: Config, store: Store, ops: seq<Op>)
    requires cfg.Valid()
    requires AllNew(store)
    ensures AllReconciled(Replay(cfg, store, ops))
  {
    LedgerReconstruction(cfg, store, ops);
  }

  // ---------------------------------------------------------------------
  // Solvency and the counter range
  // ---------------------------------------------------------------------

  /** One call keeps spent at most earned, provided an award it makes is not negative. */
  lemma ApplySolvent(cfg: Config, store: Store, op: Op)
    requires cfg.Valid()
    requires cfg.cp_award_per_cycle >= 0
    requires op.AwardOp? ==> op.amount >= 0
    requires AllSolvent(store)
    ensures AllSolvent(Apply(cfg, store, op))
  {
  }

  /**
   With a non-negative cycle award, any sequence of calls whose explicit
   awards are non-negative keeps `cp_spent <= cp_total` for every character.
   */
  lemma {:induction false} ReplaySolvent(cfg: Config, store: Store, ops: seq<Op>)
    requires cfg.Valid()
    requires cfg.cp_award_per_cycle >= 0
    requires NonNegativeAwards(ops)
    requires AllSolvent(store)
    ensures AllSolvent(Replay(cfg, store, ops))
    decreases |ops|
  {
    if |ops| > 0 {
      ApplySolvent(cfg, store, ops[0]);
      assert NonNegativeAwards(ops[1..]) by {
        forall i | 0 <= i < |ops[1..]| && ops[1..][i].AwardOp?
          ensures ops[1..][i].amount >= 0
        {
          assert ops[1..][i] == ops[i + 1];
        }
      }
      ReplaySolvent(cfg, Apply(cfg, store, ops[0]), ops[1..]);
    }
  }

  /** A negative award can leave a character owing: the source does not check the sign. */
  lemma NegativeAwardBreaksSolvency(cfg: Config)
    requires cfg.Valid()
    ensures !Solvent(AwardRecord(cfg, NewRecord(), -1, "correction"))
  {
  }

  /** Every call keeps each activity counter within the cycle. */
  lemma {:induction false} ReplayCountersInRange(cfg: Config, store: Store, ops: seq<Op>)
    requires cfg.Valid()
    requires AllCountersInRange(cfg, store)
    ensures AllCountersInRange(cfg, Replay(cfg, store, ops))
    decreases |ops|
  {
    if |ops| > 0 {
      var next := Apply(cfg, store, ops[0]);
      assert AllCountersInRange(cfg, next);
      ReplayCountersInRange(cfg, next, ops[1..]);
    }
  }

  // ---------------------------------------------------------------------
  // The log is append-only
  // ---------------------------------------------------------------------

  /** No call removes a character, and no call rewrites or drops a logged event. */
  lemma {:induction false} ReplayAppendsOnly(cfg: Config, store: Store, ops: seq<Op>)
    requires cfg.Valid()
    ensures Replay(cfg, store, ops).Keys == store.Keys
    ensures forall k :: k in store ==> store[k].events <= Replay(cfg, store, ops)[k].events
    decreases |ops|
  {
    if |ops| > 0 {
      var next := Apply(cfg, store, ops[0]);
      assert next.Keys == store.Keys;
      assert forall k :: k in store ==> store[k].events <= next[k].events;
      ReplayAppendsOnly(cfg, next, ops[1..]);
    }
  }

  // ---------------------------------------------------------------------
  // The activity cycle
  // ---------------------------------------------------------------------

  /** `n` ticks on one record. */
  function TickTimes(cfg: Config, rec: Record, n: nat): Record
    requires cfg.Valid()
    decreases n
  {
    if n == 0 then rec else TickTimes(cfg, TickRecord(cfg, rec).0, n - 1)
  }

  /** Ticks that do not reach the end of the cycle only advance the counter. */
  lemma {:induction false} TicksBeforeWrap(cfg: Config, rec: Record, n: nat)
    requires cfg.Valid()
    requires 0 <= rec.response_count
    requires rec.response_count + n < cfg.spark_cycle_size
    ensures TickTimes(cfg, rec, n) == rec.(response_count := rec.response_count + n)
    decreases n
  {
    if n > 0 {
      var next := TickRecord(cfg, rec).0;
      assert next == rec.(response_count := rec.response_count + 1);
      TicksBeforeWrap(cfg, next, n - 1);
    }
  }

  /**
   The tick at the last position of the cycle wraps the counter to zero,
   reports the cycle award, and logs exactly one award event, followed by
   at most one tier note.
   */
  lemma WrapTick(cfg: Config, rec: Record)
    requires cfg.Valid()
    requires rec.response_count == cfg.spark_cycle_size - 1
    ensures TickRecord(cfg, rec).1 == TickResult(0, cfg.cp_award_per_cycle, true)
    ensures TickRecord(cfg, rec).0.cp_total == rec.cp_total + cfg.cp_award_per_cycle
    ensures TickRecord(cfg, rec).0.events
            == rec.events + [Award(CycleReason, cfg.cp_award_per_cycle)]
               + TierNotes(cfg, rec.tier, rec.cp_total + cfg.cp_award_per_cycle)
  {
  }

  /**
   A full cycle from a zero counter: `cycle length - 1` ticks change only the
   counter; the next tick wraps it to zero, adds the cycle award, and logs
   the cycle award event right after the earlier log.
   */
  lemma FullCycle(cfg: Config, rec: Record)
    requires cfg.Valid()
    requires rec.response_count == 0
    ensures TickTimes(cfg, rec, cfg.spark_cycle_size - 1) == rec.(response_count := cfg.spark_cycle_size - 1)
    ensures TickTimes(cfg, rec, cfg.spark_cycle_size).response_count == 0
    ensures TickTimes(cfg, rec, cfg.spark_cycle_size).cp_total == rec.cp_total + cfg.cp_award_per_cycle
    ensures |TickTimes(cfg, rec, cfg.spark_cycle_size).events| >= |rec.events| + 1
    ensures TickTimes(cfg, rec, cfg.spark_cycle_size).events[..|rec.events| + 1]
            == rec.events + [Award(CycleReason, cfg.cp_award_per_cycle)]
  {
    var n: nat := cfg.spark_cycle_size - 1;
    var before := rec.(response_count := n);
    TicksBeforeWrap(cfg, rec, n);
    assert rec.(response_count := rec.response_count + n) == before;
    assert TickTimes(cfg, rec, n) == before;
    TickTimesLast(cfg, rec, n);
    var last := TickRecord(cfg, before).0;
    assert TickTimes(cfg, rec, cfg.spark_cycle_size) == last;
    WrapTick(cfg, before);
    var award := [Award(CycleReason, cfg.cp_award_per_cycle)];
    var notes := TierNotes(cfg, rec.tier, rec.cp_total + cfg.cp_award_per_cycle);
    assert last.events == rec.events + award + notes;
    assert (rec.events + award + notes)[..|rec.events| + 1] == rec.events + award;
  }

  /**
   With a cycle of ten, nine ticks on a new character leave the counter at 9
   with no CP awarded; the tenth wraps to 0, awards the cycle CP and reports
   the cycle complete.
   */
  lemma ScenarioTenTicks(cfg: Config)
    requires cfg.Valid()
    requires cfg.spark_cycle_size == 10
    ensures TickTimes(cfg, NewRecord(), 9) == NewRecord().(response_count := 9)
    ensures TickRecord(cfg, TickTimes(cfg, NewRecord(), 9)).1 == TickResult(0, cfg.cp_award_per_cycle, true)
    ensures TickTimes(cfg, NewRecord(), 10).events[0] == Award(CycleReason, cfg.cp_award_per_cycle)
  {
    FullCycle(cfg, NewRecord());
    WrapTick(cfg, NewRecord().(response_count := 9));
  }

  /** `n + 1` ticks are `n` ticks followed by one more. */
  lemma {:induction false} TickTimesLast(cfg: Config, rec: Record, n: nat)
    requires cfg.Valid()
    ensures TickTimes(cfg, rec, n + 1) == TickRecord(cfg, TickTimes(cfg, rec, n)).0
    decreases n
  {
    if n > 0 {
      TickTimesLast(cfg, TickRecord(cfg, rec).0, n - 1);
    }
  }

  // ---------------------------------------------------------------------
  // The manual override
  // ---------------------------------------------------------------------

  /**
   A manually set tier survives ticks that do not complete a cycle, but the
   next successful spend re-runs the tier check: it reverts the tier to the
   computed one and logs a note just before the spend event.
   */
  lemma ManualTierRevertedBySpend(cfg: Config, store: Store, id: CharId, tier: string, amount: int, reason: string)
    requires cfg.Valid()
    requires id in store
    requires tier != CalculateTier(cfg.tiers, store[id].cp_total)
    requires amount <= store[id].Available()
    ensures var s := SetTier(store, id, tier);
      && s[id].tier == tier
      && (TickRecord(cfg, s[id]).1.cycle_complete || TickRecord(cfg, s[id]).0.tier == tier)
      && SpendCP(cfg, s, id, amount, reason).Ok?
      && var after := SpendCP(cfg, s, id, amount, reason).value.store[id];
      && after.tier == CalculateTier(cfg.tiers, store[id].cp_total)
      && after.events == store[id].events
           + [Note(AdvanceMessage(after.tier)), Spend(reason, -amount)]
  {
  }

  // ---------------------------------------------------------------------
  // Worked scenario
  // ---------------------------------------------------------------------

  /** A two-tier table: every character starts at 0 and advances at 50. */
  const ScenarioTiers: seq<TierEntry> := [TierEntry("Spark Initiate", 0), TierEntry("Ascendant", 50)]

  /** The threshold is inclusive: 49 stays in the first tier, 50 reaches the second. */
  lemma ScenarioTierBoundary()
    ensures CalculateTier(ScenarioTiers, 49) == "Spark Initiate"
    ensures CalculateTier(ScenarioTiers, 50) == "Ascendant"
  {
    assert LastMatch(ScenarioTiers, 49) == 0;
    assert LastMatch(ScenarioTiers, 50) == 1;
  }

  /**
   Award 50 to a new character (advancing it, note first), spend 30, then
   try to spend 25 more: the last spend fails with 20 available and 25
   requested.
   */
  lemma ScenarioAwardSpendOverspend(cycle: int, perCycle: int)
    requires cycle > 0
    ensures var cfg := Config(cycle, perCycle, ScenarioTiers);
      var s0 := map["hero" := NewRecord()];
      && AwardCP(cfg, s0, "hero", 50, "quest").Ok?
      && var s1 := AwardCP(cfg, s0, "hero", 50, "quest").value.store;
      && s1["hero"].cp_total == 50
      && s1["hero"].tier == "Ascendant"
      && s1["hero"].events == [Note(AdvanceMessage("Ascendant")), Award("quest", 50)]
      && SpendCP(cfg, s1, "hero", 30, "perk buy").Ok?
      && var s2 := SpendCP(cfg, s1, "hero", 30, "perk buy").value.store;
      && s2["hero"].cp_spent == 30
      && s2["hero"].Available() == 20
      && s2["hero"].events == s1["hero"].events + [Spend("perk buy", -30)]
      && SpendCP(cfg, s2, "hero", 25, "over-buy") == Err(InsufficientCP(20, 25))
  {
    ScenarioTierBoundary();
  }
}
