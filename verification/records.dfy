/**
 The data of the progression ledger: the per-character progression record,
 its append-only event log, the immutable configuration, the character
 store, and the error conditions an operation can report.
 */
module Records {
  import opened Tiers

  type CharId = string

  /**
   One ledger event. Award and spend events carry the caller's reason and a
   signed CP delta; a tier note carries a message and no delta.
   */
  datatype Event =
    | Award(reason: string, delta: int)
    | Spend(reason: string, delta: int)
    | Note(message: string)
  {
    /** The event's CP delta; absent (null) for a tier note. */
    function DeltaCp(): (d: Option<int>)
      ensures d.None? <==> this.Note?
    {
      match this
      case Award(_, delta) => Some(delta)
      case Spend(_, delta) => Some(delta)
      case Note(_) => None
    }
  }

  datatype Option<+T> = None | Some(value: T)

  /** The progression fields of one character, with that character's event log in creation order. */
  datatype Record = Record(
    cp_total: int,
    cp_spent: int,
    response_count: int,
    tier: string,
    events: seq<Event>)
  {
    /** CP earned and not yet spent. */
    function Available(): (a: int)
      ensures a + cp_spent == cp_total
      ensures a >= 0 <==> cp_spent <= cp_total
    {
      cp_total - cp_spent
    }
  }

  /** The process-wide configuration, read once at start-up. */
  datatype Config = Config(spark_cycle_size: int, cp_award_per_cycle: int, tiers: seq<TierEntry>)
  {
    /** The configurations the model covers: a positive cycle length and a non-empty tier table. */
    predicate Valid() {
      spark_cycle_size > 0 && |tiers| > 0
    }
  }

  /** The tier every new character starts in. */
  const DefaultTier: string := "Spark Initiate"

  /** A freshly created character: the column defaults of the characters table, and no events. */
  function NewRecord(): (r: Record)
    ensures r.cp_total == 0 && r.cp_spent == 0 && r.response_count == 0
    ensures r.tier == DefaultTier && r.events == []
  {
    Record(0, 0, 0, DefaultTier, [])
  }

  type Store = map<CharId, Record>

  datatype Error =
    | NotFound(id: CharId)
    | InsufficientCP(available: int, requested: int)

  datatype Result<+T> = Ok(value: T) | Err(error: Error)

  /** A successful operation: the new store and the operation's return value. */
  datatype Step<+T> = Step(store: Store, value: T)

  /** Sum of the CP deltas of the award and spend events, in order. */
  function DeltaSum(events: seq<Event>): int {
    if |events| == 0 then 0
    else
      DeltaSum(events[..|events| - 1]) + match events[|events| - 1].DeltaCp() {
        case Some(d) => d
        case None => 0
      }
  }

  /** Appending events adds their deltas to the sum. */
  lemma {:induction false} DeltaSumAppend(a: seq<Event>, b: seq<Event>)
    ensures DeltaSum(a + b) == DeltaSum(a) + DeltaSum(b)
    decreases |b|
  {
    if |b| > 0 {
      assert (a + b)[..|a + b| - 1] == a + b[..|b| - 1];
      DeltaSumAppend(a, b[..|b| - 1]);
    } else {
      assert a + b == a;
    }
  }

  /** The balance is the sum of the logged deltas. */
  predicate Reconciled(r: Record) {
    r.Available() == DeltaSum(r.events)
  }

  /** Never more spent than earned. */
  predicate Solvent(r: Record) {
    r.cp_spent <= r.cp_total
  }
}
