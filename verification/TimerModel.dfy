/** Vocabulary shared by the stores and the engine: positions in a shard's timer table, and their order. */
module TimerModel {

  datatype Option<+T> = None | Some(value: T)

  /** databases.ZeroUUID and databases.MaxUUID. A uuid is its rank in the store's uuid order. */
  const ZERO_UUID: nat := 0
  const MAX_UUID: nat := 0xFFFF_FFFF_FFFF_FFFF_FFFF_FFFF_FFFF_FFFF

  type Uuid = u: nat | u <= MAX_UUID

  /** databases.ZeroTimestamp, one second after the epoch, in nanoseconds. */
  const ZERO_TIMESTAMP: int := 1_000_000_000

  /** Go's zero time.Time, January 1 of year 1, in nanoseconds from the epoch. */
  const GO_ZERO_TIME: int := -62_135_596_800_000_000_000

  /** A position (execute_at, uuid) in a shard's table; every timer row sits at its own position. */
  datatype Offset = Offset(time: int, uuid: Uuid)

  /** The committed offset of a shard record that was never updated. */
  const DEFAULT_METADATA := Offset(GO_ZERO_TIME, ZERO_UUID)

  /** Where every range delete of the engine starts. */
  const TABLE_START := Offset(ZERO_TIMESTAMP, ZERO_UUID)

  predicate Less(a: Offset, b: Offset) {
    a.time < b.time || (a.time == b.time && a.uuid < b.uuid)
  }

  predicate Leq(a: Offset, b: Offset) {
    a == b || Less(a, b)
  }

  /** The last position whose time is t. */
  function EndOf(t: int): Offset {
    Offset(t, MAX_UUID)
  }

  /** A timer row. Payload and retry policy are the serialized texts the stores keep. */
  datatype DbTimer = DbTimer(
    namespace: string, id: string, executeAt: int, uuid: Uuid,
    callbackUrl: string, payload: string, retryPolicy: string, timeoutSeconds: int,
    createdAt: int, attempts: int)
  {
    function Key(): Offset {
      Offset(executeAt, uuid)
    }

    predicate Named(ns: string, timerId: string) {
      namespace == ns && id == timerId
    }
  }

  datatype UpdateRequest = UpdateRequest(
    timerId: string, executeAt: int,
    callbackUrl: string, payload: string, retryPolicy: string, timeoutSeconds: int)

  /** The rows of one shard by position. */
  type Rows = map<Offset, DbTimer>

  ghost predicate RowsValid(rows: Rows) {
    forall k :: k in rows ==> rows[k].Key() == k
  }

  /** The kinds of databases.DbError. */
  datatype DbError = Generic | ShardConditionFail | NotExists

  datatype Outcome = Done | Failed(error: DbError)

  /** The shard record kept beside the timer rows. */
  datatype ShardRow = ShardRow(version: int, owner: string, claimedAt: int, metadata: Offset)

  /** Two tables agree on every position outside a set. */
  ghost predicate SameElsewhere(before: Rows, after: Rows, at: set<Offset>) {
    forall k :: k !in at ==> (k in after <==> k in before) && (k in after ==> after[k] == before[k])
  }

  /** Rows outside a range. */
  function Outside(rows: Rows, lo: Offset, hi: Offset): Rows {
    map k | k in rows && !(Leq(lo, k) && Leq(k, hi)) :: rows[k]
  }
}
