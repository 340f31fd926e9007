# CP progression ledger — a Dafny model

This project models the progression ledger of the Celestial MCP character
tracker (`CPOperations` in `src/cp-ops.ts`). A character earns a point
currency, CP, by explicit award or automatically at the end of every activity
cycle. It spends CP, and it is placed in a named tier derived from its
cumulative CP earned. Every award and spend, including the automatic cycle
award, and every tier change made by the automatic tier check, is logged as
an event in an append-only log. Two changes are not logged: the manual tier
override, and the counter update of a tick that does not complete a cycle.

The model is functional. The SQLite `characters` table becomes a
`map<CharId, Record>`. Each `Record` holds `cp_total`, `cp_spent`,
`response_count`, the stored `tier` and that character's event log, in
creation order. Each caller-facing operation is a pure function from the
store to a `Result`: either the new store with the operation's return value,
or an error (`NotFound`, `InsufficientCP(available, requested)`). An error
produces no store, so a failed call changes nothing.

Files:

- `tiers.dfy` (module `Tiers`): the tier table and the tier resolver
  `calculateTier`. There is a forward scan written like the source loop, an
  independent backward "last match" reference definition, and the proof that
  the two agree.
- `records.dfy` (module `Records`): events, records, configuration, the
  store, errors, the default record, and the sum of logged deltas.
- `ledger.dfy` (module `Ledger`): `awardCP`, `spendCP`, `tickResponse`,
  `setTier`, `updateTier`, `logEvent`, and JavaScript's `%`.
- `properties.dfy` (module `LedgerProperties`): replay of arbitrary call
  sequences and the properties proved over them.

Decisions:

- The configuration (`spark_cycle_size`, `cp_award_per_cycle`, `tiers`) is an
  immutable parameter. Every operation requires `Config.Valid()`: a positive
  cycle length and a non-empty tier table. The constructor
  (`src/cp-ops.ts:15-17`) parses the configuration without checking it; the
  model covers only configurations with these two properties, and
  "## Left out" says what the source does with the others.
- The model assumes integer CP amounts and models them as `int`. The sign of
  an award or spend amount is not checked, as in the source.
- `tickResponse` uses JavaScript's truncating `%`, modelled as `Ledger.JsRem`.
  From any stored count `>= -1` the new count lies in `[0, spark_cycle_size)`.
- On a cycle wrap, `tickResponse` does not call `awardCP`. It adds the CP and
  logs the award directly (`src/cp-ops.ts:64-70`), stores the counter, and
  only then runs the tier check (`src/cp-ops.ts:79-81`). So on a wrap a tier
  note comes after the award event, while in `awardCP` it comes before.

## Model

| member | source | states |
|---|---|---|
| Tiers.LastMatch | src/cp-ops.ts:108-116 | Reference for the resolver: the index of the last table entry whose threshold the total reaches, or -1 if none. No later entry is reached. |
| Tiers.TierScan | src/cp-ops.ts:109-114 | The source's loop over the table from a position: the result is either the starting candidate or the name of a reached entry at or after that position. Its exact value is given by `TierScanIsLastMatch`. |
| Tiers.TierScanIsLastMatch | src/cp-ops.ts:110-114 | The source's forward loop, run from any position, ends on the last matching entry if that entry lies at or after the position. Otherwise it keeps the candidate it started with. |
| Tiers.CalculateTier | src/cp-ops.ts:108-116 | The resolved tier is the name of the last entry in table order whose `min_cp` the total reaches. With no such entry it is the first entry's name. It is always a name from the table. |
| Tiers.TierRank | src/cp-ops.ts:108-116 | The table position of the resolved tier is a valid index, and the name at that position is the resolved tier. |
| Tiers.TierRankMonotone | src/cp-ops.ts:110-114 | A larger total never selects an earlier table position. On an ascending table it never selects a lower threshold. |
| Tiers.AscendingSelectsHighestReached | src/cp-ops.ts:108-116 | On an ascending table whose first threshold is reached, every entry up to the resolved one is reached and none after it, so the result is the highest threshold not exceeding the total. |
| Tiers.ThresholdInclusive | src/cp-ops.ts:111 | A total equal to an entry's threshold selects that entry or a later one, because the comparison is `>=`. |
| Records.Event.DeltaCp | src/cp-ops.ts:122 | An event has a CP delta exactly when it is an award or a spend. A tier note's delta is null. |
| Records.Record.Available | src/cp-ops.ts:38 | Available CP plus CP spent equals CP earned. It is non-negative exactly when no more has been spent than earned. |
| Records.NewRecord | src/database.ts:62-65 | A new character starts with 0 earned, 0 spent, counter 0, tier "Spark Initiate" and an empty log. |
| Records.DeltaSumAppend | src/cp-ops.ts:118-141 | Appending events to a log adds their deltas to the log's delta sum. |
| Ledger.JsRem | src/cp-ops.ts:60 | JavaScript's `%` for a positive divisor. The result is strictly between `-n` and `n`. It equals Dafny's `%` for a non-negative dividend, and it is the negated remainder of the magnitude for a negative one. |
| Ledger.AdvanceMessage | src/cp-ops.ts:104 | The note's message is the fixed prefix "Advanced to tier: " followed by exactly the new tier's name. |
| Ledger.TierNotes | src/cp-ops.ts:101-105 | The tier check emits no note exactly when the resolved tier equals the stored one. Otherwise it emits a single note naming the resolved tier. |
| Ledger.LogEvent | src/cp-ops.ts:118-141 | Logging appends exactly the given event to the log and leaves every other field unchanged. |
| Ledger.UpdateTierRecord | src/cp-ops.ts:97-106 | Afterwards the stored tier is the resolved tier, and the CP fields and counter are unchanged. The record is left exactly as it was if and only if the stored tier already matched. Otherwise exactly one note naming the new tier is appended. |
| Ledger.UpdateTier | src/cp-ops.ts:97-99 | The tier check on the store ignores a missing character. Otherwise it changes only that character, as the record-level check does. |
| Ledger.AwardRecord | src/cp-ops.ts:25-29 | `cp_total` grows by the amount, of any sign. `cp_spent` and the counter are unchanged, and the tier is re-resolved. The log gains any tier note and then one award event with delta `+amount`. A non-negative award keeps `cp_spent <= cp_total`. |
| Ledger.SpendRecord | src/cp-ops.ts:38-47 | The spend fails if and only if available < amount, with an insufficient-CP error carrying available and requested. On success `cp_spent` grows by the amount and `cp_total` and the counter are unchanged. The tier is re-resolved, the log gains any tier note and then one spend event with delta `-amount`, and `cp_spent <= cp_total` holds afterwards. |
| Ledger.TickRecord | src/cp-ops.ts:60-87 | The new count is `(old + 1) % cycle` with JavaScript's truncating `%`, and from a stored count >= -1 it lies in `[0, cycle)`. The cycle completes if and only if the count is 0, and the award reported is the cycle award on a wrap and 0 otherwise. Without a wrap only the counter changes. On a wrap the total grows by the cycle award, one award event "Spark cycle complete" is logged, and then any tier note. |
| Ledger.AwardCP | src/cp-ops.ts:19-30 | Fails with not-found if and only if the character is missing. Otherwise it changes only that character, as `AwardRecord` does, and returns the award event. |
| Ledger.SpendCP | src/cp-ops.ts:32-48 | A missing character gives not-found. Otherwise it fails if and only if the balance is short, with the available and requested amounts. On success it changes only that character, as `SpendRecord` does, and returns the spend event. |
| Ledger.TickResponse | src/cp-ops.ts:50-88 | Fails with not-found if and only if the character is missing. Otherwise it changes only that character and reports the new count, the CP awarded and the cycle flag, as `TickRecord` does. |
| Ledger.SetTier | src/cp-ops.ts:90-95 | Overwrites only the stored tier, with any name, and logs nothing. A missing character leaves the store unchanged, with no error. |
| LedgerProperties.UpdateTierIdempotent | src/cp-ops.ts:97-106 | Running the tier check twice in a row equals running it once. The check adds at most one event. |
| LedgerProperties.FailedSpendChangesNothing | src/cp-ops.ts:33-41 | A spend against a missing character, or one exceeding the available balance, is an error and leaves the store unchanged. |
| LedgerProperties.MissingCharacterChangesNothing | src/cp-ops.ts:20-23 | Every call against a missing character leaves the store unchanged. Award, spend and tick report not-found. |
| LedgerProperties.TierNotesSumZero | src/cp-ops.ts:104 | Tier notes carry a null delta, so they add nothing to the delta sum. |
| LedgerProperties.AwardReconciles | src/cp-ops.ts:25-29 | An award keeps "available CP equals the sum of logged deltas": the total and the logged delta both move by the amount. |
| LedgerProperties.SpendReconciles | src/cp-ops.ts:43-47 | A successful spend keeps "available CP equals the sum of logged deltas": spent grows by the amount and the logged delta is its negation. |
| LedgerProperties.TickReconciles | src/cp-ops.ts:64-81 | A tick keeps "available CP equals the sum of logged deltas": on a wrap the total and the logged award both move by the cycle award. |
| LedgerProperties.ApplyReconciles | src/cp-ops.ts:19-95 | Any single call keeps every character's balance equal to the sum of its logged deltas. |
| LedgerProperties.LedgerReconstruction | src/cp-ops.ts:19-95 | From any store whose balances match their logs, after any sequence of calls, `cp_total - cp_spent` equals the sum of the award and spend deltas in each character's log. |
| LedgerProperties.LedgerReconstructionFromNew | src/cp-ops.ts:19-95 | From freshly created characters, after any sequence of calls, `cp_total - cp_spent` equals the sum of the award and spend deltas in each character's log. |
| LedgerProperties.ApplySolvent | src/cp-ops.ts:19-95 | One call keeps `cp_spent <= cp_total` for every character, if any award it makes is non-negative. |
| LedgerProperties.ReplaySolvent | src/cp-ops.ts:19-95 | With a non-negative cycle award, any call sequence whose explicit awards are non-negative keeps `cp_spent <= cp_total` for every character. |
| LedgerProperties.NegativeAwardBreaksSolvency | src/cp-ops.ts:25-26 | The amount's sign is not checked: an award of -1 to a new character leaves it with more spent than earned. |
| LedgerProperties.ReplayCountersInRange | src/cp-ops.ts:60-76 | Every call keeps every character's activity counter in `[0, cycle)`. |
| LedgerProperties.ReplayAppendsOnly | src/cp-ops.ts:118-141 | No call sequence removes a character. Each character's earlier log is a prefix of its later log. |
| LedgerProperties.TicksBeforeWrap | src/cp-ops.ts:60-76 | Ticks that stay short of the cycle length only advance the counter, one per tick. |
| LedgerProperties.TickTimesLast | src/cp-ops.ts:50-88 | `n + 1` ticks are `n` ticks followed by one more tick. |
| LedgerProperties.WrapTick | src/cp-ops.ts:60-70 | The tick at the last position wraps to 0 and reports the cycle award and completion. It appends exactly the cycle award event followed by the tier notes of the new total: none, or one note naming the new tier. |
| LedgerProperties.FullCycle | src/cp-ops.ts:60-87 | From counter 0, `cycle - 1` ticks change only the counter. The next tick wraps the counter to 0, adds the cycle award to `cp_total`, and logs the cycle award event directly after the earlier log. |
| LedgerProperties.ScenarioTenTicks | src/cp-ops.ts:60-87 | With a cycle of 10, nine ticks on a new character leave the counter at 9 and award nothing. The tenth tick wraps to 0, reports the cycle award and completion, and logs the cycle award as the first event. |
| LedgerProperties.ManualTierRevertedBySpend | src/cp-ops.ts:44-45 | A manually set tier survives a non-wrapping tick. The next successful spend reverts it to the resolved tier and logs a note just before the spend event. |
| LedgerProperties.ScenarioTierBoundary | src/cp-ops.ts:108-116 | With thresholds Spark Initiate 0 and Ascendant 50, a total of 49 resolves to Spark Initiate and 50 to Ascendant. |
| LedgerProperties.ScenarioAwardSpendOverspend | src/cp-ops.ts:19-48 | Award 50 to a new character: it advances to Ascendant, with the note logged before the award. Spend 30: 20 remains and one spend event with delta -30 is logged. A further spend of 25 fails with available 20 and requested 25. |

## Left out

- Timestamps, UUIDs and `updated_at`: events are ordered by their position in the log, not by `created_at`.
- Event payloads are the closed variants `reason` and `message`, not JSON strings, so `JSON.stringify` is not modelled.
- `getEventLogs` (`src/cp-ops.ts:156-161`) is a SQL query with `ORDER BY created_at DESC LIMIT`, and is not modelled.
- Reading `config.json` from disk: the configuration is a parameter, and the source does not validate it.
- An empty tier table is excluded by `Config.Valid`. In the source an award or a spend then throws inside the tier check at `src/cp-ops.ts:109`, after `updateCharacterCP` (`src/cp-ops.ts:26`, `:44`) has written the new CP and before the event is logged (`:29`, `:47`). Such a call commits a CP change with no event, which the reconciliation results do not cover. A wrapping tick writes the CP (`:68`), logs its award (`:69`) and stores the counter (`:76`) before it throws at `:80`, so its balance still matches its log.
- A zero cycle length is excluded by `Config.Valid`. In the source `%` by zero yields `NaN` at `src/cp-ops.ts:60`, so the cycle does not complete and nothing is written before the counter update at `:73-76`. That update binds `NaN` as NULL into the `NOT NULL` counter column (`src/database.ts:64`), so it is rejected and the tick fails.
- A negative cycle length is excluded by `Config.Valid`. In the source it behaves like its magnitude, because JavaScript's `%` ignores the divisor's sign.
- Values beyond `Number.MAX_SAFE_INTEGER` (2^53 - 1) are not modelled. The source's sums at `src/cp-ops.ts:25`, `:43` and `:67` are IEEE doubles and round there: with `cp_total = 2^53`, an award of 1 leaves the total unchanged but logs a delta of 1. The reconciliation and solvency results assume exact integer sums.
- Non-integer and non-finite JavaScript numbers are not modelled: amounts are mathematical integers. SQLite's `INTEGER` column affinity would store a value such as 2.5 as a real number.
- Transactions and concurrent calls: each call is one atomic transition. In the source the writes inside a call are separate statements with no transaction around them.
- The MCP request layer, the perk catalogue, character CRUD and schema creation are not part of this model. The schema is used only for the default record.
- Direct writes to `cp_total`, `cp_spent` or `response_count` through the generic character update are not part of this model. This is why the solvency and counter-range results are stated as preserved invariants rather than as facts about every stored record.
