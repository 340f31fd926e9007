/**
 The ledger engine and the activity cycle counter: award, spend, tick,
 manual tier override and the automatic tier check. Each operation is one
 atomic transition of the character store. The record-level functions say
 what happens to the one character touched; the store-level functions add
 the lookup, its not-found error, and the write-back.
 */
module Ledger {
  import opened Tiers
  import opened Records

  /** The reason recorded on the automatic award at the end of an activity cycle. */
  const CycleReason: string := "Spark cycle complete"

  /** The message of the note logged when the tier check changes the tier. */
  function AdvanceMessage(tier: string): (m: string)
    ensures |m| == |tier| + 18
    ensures m[..18] == "Advanced to tier: " && m[18..] == tier
  {
    "Advanced to tier: " + tier
  }

  /**
   JavaScript's `%`: the remainder of truncating division, whose sign follows
   the dividend (unlike Dafny's Euclidean `%`).
   */
  function JsRem(a: int, n: int): (r: int)
    requires n > 0
    ensures -n < r < n
    ensures a >= 0 ==> r == a % n
    ensures a < 0 ==> r <= 0 && r == -JsRem(-a, n)
    decreases if a < 0 then 1 else 0
  {
    if a >= 0 then a % n else -((-a) % n)
  }

  /** The notes the tier check emits for a record whose stored tier is `stored` and whose total is `total`. */
  function TierNotes(cfg: Config, stored: string, total: int): (notes: seq<Event>)
    requires cfg.Valid()
    ensures notes == [] <==> CalculateTier(cfg.tiers, total) == stored
    ensures |notes| <= 1
    ensures forall i :: 0 <= i < |notes| ==> notes[i] == Note(AdvanceMessage(CalculateTier(cfg.tiers, total)))
  {
    var t := CalculateTier(cfg.tiers, total);
    if t == stored then [] else [Note(AdvanceMessage(t))]
  }

  /** Appends one event to the record's log. */
  function LogEvent(rec: Record, e: Event): (r: Record)
    ensures r.events == rec.events + [e]
    ensures r.(events := rec.events) == rec
  {
    rec.(events := rec.events + [e])
  }

  /**
   The automatic tier check: when the tier computed from `cp_total` differs
   from the stored one, store it and log one note naming it; otherwise do
   nothing at all.
   */
  function UpdateTierRecord(cfg: Config, rec: Record): (r: Record)
    requires cfg.Valid()
    ensures r.cp_total == rec.cp_total && r.cp_spent == rec.cp_spent
    ensures r.response_count == rec.response_count
    ensures r.tier == CalculateTier(cfg.tiers, rec.cp_total)
    ensures r == rec <==> rec.tier == CalculateTier(cfg.tiers, rec.cp_total)
    ensures r.events == rec.events + TierNotes(cfg, rec.tier, rec.cp_total)
    ensures r != rec ==> r.events == rec.events + [Note(AdvanceMessage(r.tier))]
  {
    var t := CalculateTier(cfg.tiers, rec.cp_total);
    if t != rec.tier then LogEvent(rec.(tier := t), Note(AdvanceMessage(t))) else rec
  }

  /**
   Award on one record: the total grows by `amount` (any sign), the tier
   check runs, and only then the award event is logged, so a tier note
   precedes the award event.
   */
  function AwardRecord(cfg: Config, rec: Record, amount: int, reason: string): (r: Record)
    requires cfg.Valid()
    ensures r.cp_total == rec.cp_total + amount
    ensures r.cp_spent == rec.cp_spent && r.response_count == rec.response_count
    ensures r.tier == CalculateTier(cfg.tiers, r.cp_total)
    ensures r.events == rec.events + TierNotes(cfg, rec.tier, r.cp_total) + [Award(reason, amount)]
    ensures amount >= 0 && Solvent(rec) ==> Solvent(r)
  {
    var raised := rec.(cp_total := rec.cp_total + amount);
    LogEvent(UpdateTierRecord(cfg, raised), Award(reason, amount))
  }

  /**
   Spend on one record: refused with the available and requested amounts
   when the available balance is below `amount`; otherwise the spent total
   grows by `amount`, the tier check runs, and a spend event with delta
   `-amount` is logged.
   */
  function SpendRecord(cfg: Config, rec: Record, amount: int, reason: string): (r: Result<Record>)
    requires cfg.Valid()
    ensures r.Err? <==> rec.Available() < amount
    ensures r.Err? ==> r.error == InsufficientCP(rec.Available(), amount)
    ensures r.Ok? ==> r.value.cp_spent == rec.cp_spent + amount
    ensures r.Ok? ==> r.value.cp_total == rec.cp_total && r.value.response_count == rec.response_count
    ensures r.Ok? ==> r.value.tier == CalculateTier(cfg.tiers, rec.cp_total)
    ensures r.Ok? ==> r.value.events == rec.events + TierNotes(cfg, rec.tier, rec.cp_total) + [Spend(reason, -amount)]
    ensures r.Ok? ==> Solvent(r.value)
  {
    var available := rec.Available();
    if available < amount then
      Err(InsufficientCP(available, amount))
    else
      var spent := rec.(cp_spent := rec.cp_spent + amount);
      Ok(LogEvent(UpdateTierRecord(cfg, spent), Spend(reason, -amount)))
  }

  /** What a tick reports: the new counter, the CP it awarded, and whether the cycle completed. */
  datatype TickResult = TickResult(response_count: int, cp_awarded: int, cycle_complete: bool)

  /**
   One activity tick on one record. The counter advances modulo the cycle
   length; on wrap-around the cycle award is added and logged first, the
   counter is stored, and only then the tier check runs, so a tier note
   follows the award event. Without a wrap only the counter changes.
   */
  function TickRecord(cfg: Config, rec: Record): (out: (Record, TickResult))
    requires cfg.Valid()
    ensures out.1.response_count == out.0.response_count
    ensures out.0.response_count == JsRem(rec.response_count + 1, cfg.spark_cycle_size)
    ensures rec.response_count >= -1 ==> 0 <= out.0.response_count < cfg.spark_cycle_size
    ensures rec.response_count >= 0 ==> out.0.response_count == (rec.response_count + 1) % cfg.spark_cycle_size
    ensures out.1.cycle_complete <==> out.0.response_count == 0
    ensures out.1.cp_awarded == if out.1.cycle_complete then cfg.cp_award_per_cycle else 0
    ensures !out.1.cycle_complete ==> out.0 == rec.(response_count := out.0.response_count)
    ensures out.1.cycle_complete ==>
      && out.0.cp_total == rec.cp_total + cfg.cp_award_per_cycle
      && out.0.cp_spent == rec.cp_spent
      && out.0.tier == CalculateTier(cfg.tiers, out.0.cp_total)
      && out.0.events == rec.events + [Award(CycleReason, cfg.cp_award_per_cycle)]
                         + TierNotes(cfg, rec.tier, out.0.cp_total)
    ensures cfg.cp_award_per_cycle >= 0 && Solvent(rec) ==> Solvent(out.0)
  {
    var newCount := JsRem(rec.response_count + 1, cfg.spark_cycle_size);
    var complete := newCount == 0;
    var awarded := if complete then cfg.cp_award_per_cycle else 0;
    var credited :=
      if complete then LogEvent(rec.(cp_total := rec.cp_total + awarded), Award(CycleReason, awarded))
      else rec;
    var counted := credited.(response_count := newCount);
    var checked := if complete then UpdateTierRecord(cfg, counted) else counted;
    (checked, TickResult(newCount, awarded, complete))
  }

  /** `store'` differs from `store` at most in the record of `id`, and has the same characters. */
  predicate OnlyChanged(store: Store, store': Store, id: CharId) {
    && store'.Keys == store.Keys
    && forall k :: k in store && k != id ==> store'[k] == store[k]
  }

  /** Award CP to a character; fails, changing nothing, when the character does not exist. */
  function AwardCP(cfg: Config, store: Store, id: CharId, amount: int, reason: string): (r: Result<Step<Event>>)
    requires cfg.Valid()
    ensures r.Err? <==> id !in store
    ensures r.Err? ==> r.error == NotFound(id)
    ensures r.Ok? ==> OnlyChanged(store, r.value.store, id)
    ensures r.Ok? ==> r.value.store[id] == AwardRecord(cfg, store[id], amount, reason)
    ensures r.Ok? ==> r.value.value == Award(reason, amount)
  {
    if id !in store then Err(NotFound(id))
    else Ok(Step(store[id := AwardRecord(cfg, store[id], amount, reason)], Award(reason, amount)))
  }

  /**
   Spend CP of a character; fails with not-found for a missing character and
   with insufficient-CP when the balance is short, and in both cases no
   store is produced, so nothing changes.
   */
  function SpendCP(cfg: Config, store: Store, id: CharId, amount: int, reason: string): (r: Result<Step<Event>>)
    requires cfg.Valid()
    ensures id !in store ==> r == Err(NotFound(id))
    ensures id in store ==> (r.Err? <==> store[id].Available() < amount)
    ensures id in store && r.Err? ==> r.error == InsufficientCP(store[id].Available(), amount)
    ensures r.Ok? ==> OnlyChanged(store, r.value.store, id)
    ensures r.Ok? ==> SpendRecord(cfg, store[id], amount, reason) == Ok(r.value.store[id])
    ensures r.Ok? ==> r.value.value == Spend(reason, -amount)
  {
    if id !in store then Err(NotFound(id))
    else
      match SpendRecord(cfg, store[id], amount, reason)
      case Err(e) => Err(e)
      case Ok(rec) => Ok(Step(store[id := rec], Spend(reason, -amount)))
  }

  /** One activity tick for a character; fails, changing nothing, when the character does not exist. */
  function TickResponse(cfg: Config, store: Store, id: CharId): (r: Result<Step<TickResult>>)
    requires cfg.Valid()
    ensures r.Err? <==> id !in store
    ensures r.Err? ==> r.error == NotFound(id)
    ensures r.Ok? ==> OnlyChanged(store, r.value.store, id)
    ensures r.Ok? ==> (r.value.store[id], r.value.value) == TickRecord(cfg, store[id])
  {
    if id !in store then Err(NotFound(id))
    else
      var (rec, res) := TickRecord(cfg, store[id]);
      Ok(Step(store[id := rec], res))
  }

  /**
   Manual override of the stored tier. Any name is accepted, nothing is
   logged, and an unknown character is silently ignored.
   */
  function SetTier(store: Store, id: CharId, tier: string): (s: Store)
    ensures OnlyChanged(store, s, id)
    ensures id !in store ==> s == store
    ensures id in store ==> s[id].tier == tier && s[id].(tier := store[id].tier) == store[id]
  {
    if id in store then store[id := store[id].(tier := tier)] else store
  }

  /** The tier check on the store; a missing character is ignored. */
  function UpdateTier(cfg: Config, store: Store, id: CharId): (s: Store)
    requires cfg.Valid()
    ensures OnlyChanged(store, s, id)
    ensures id !in store ==> s == store
    ensures id in store ==> s[id] == UpdateTierRecord(cfg, store[id])
  {
    if id in store then store[id := UpdateTierRecord(cfg, store[id])] else store
  }
}
