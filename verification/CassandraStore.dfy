/**
  The lightweight transactions of the Cassandra store, for one shard. A claim is two requests, a read and a
  compare-and-set; update and delete are a lookup followed by a conditional batch. The functions say what each
  request does to the shard's partition; the class performs the requests on its fields.
 */
module CassandraStore {
  import opened TimerModel
  import opened SortedTable

  datatype Partition = Partition(shard: Option<ShardRow>, timers: Rows)

  /** What a claim returns: the record it read and the record it became owner of, or a failed condition. */
  datatype ClaimResult = Claimed(previous: Option<ShardRow>, current: ShardRow) | ClaimLost

  /**
    The second half of ClaimShardOwnership. The stored metadata is not written, so the metadata handed to
    the claimer is the one it read, which may be older than the stored one.
   */
  function Claim(stored: Option<ShardRow>, read: Option<ShardRow>, owner: string, now: int)
    : (Option<ShardRow>, ClaimResult)
  {
    match read
    case None =>
      var row := ShardRow(1, owner, now, DEFAULT_METADATA);
      if stored.None? then (Some(row), Claimed(None, row)) else (stored, ClaimLost)
    case Some(r) =>
      if stored.Some? && stored.value.version == r.version then
        (Some(ShardRow(r.version + 1, owner, now, stored.value.metadata)),
         Claimed(read, ShardRow(r.version + 1, owner, now, r.metadata)))
      else (stored, ClaimLost)
  }

  /** The conditional requests. Update and Delete carry what their lookup found. */
  datatype Request =
    | UpdateMetadata(metadata: Offset)
    | CreateTimer(timer: DbTimer)
    | RangeDeleteAndInsert(lo: Offset, hi: Offset, inserts: seq<DbTimer>)
    | UpdateTimer(found: Offset, createdAt: int, namespace: string, request: UpdateRequest)
    | DeleteTimer(found: Offset)

  /** Unconditional inserts, a later one overwriting an earlier one at the same position. */
  function Upsert(rows: Rows, timers: seq<DbTimer>): Rows
    decreases |timers|
  {
    if timers == [] then rows
    else Upsert(rows[timers[0].Key() := timers[0]], timers[1..])
  }

  /** The last of these timers at a position, -1 if none. */
  function LastAt(timers: seq<DbTimer>, k: Offset): (i: int)
    ensures -1 <= i < |timers|
    ensures i >= 0 ==> timers[i].executeAt == k.time && timers[i].uuid == k.uuid
    ensures forall j :: i < j < |timers| ==> timers[j].executeAt != k.time || timers[j].uuid != k.uuid
  {
    if timers == [] then -1
    else
      var rest := LastAt(timers[1..], k);
      if rest >= 0 then rest + 1
      else if timers[0].executeAt == k.time && timers[0].uuid == k.uuid then 0
      else -1
  }

  /** After the inserts a position holds the last of them there, or what it held before. */
  lemma {:induction false} UpsertExactly(rows: Rows, timers: seq<DbTimer>)
    ensures forall k :: LastAt(timers, k) >= 0 ==>
              k in Upsert(rows, timers) && Upsert(rows, timers)[k] == timers[LastAt(timers, k)]
    ensures forall k :: LastAt(timers, k) < 0 ==>
              (k in Upsert(rows, timers) <==> k in rows)
              && (k in rows ==> Upsert(rows, timers)[k] == rows[k])
    decreases |timers|
  {
    if timers != [] {
      UpsertExactly(rows[timers[0].Key() := timers[0]], timers[1..]);
    }
  }

  /** The row an update writes; Cassandra resets the attempts. */
  function Updated(found: Offset, createdAt: int, namespace: string, r: UpdateRequest): DbTimer {
    DbTimer(namespace, r.timerId, r.executeAt, found.uuid,
            r.callbackUrl, r.payload, r.retryPolicy, r.timeoutSeconds, createdAt, 0)
  }

  /** An update at an unchanged time only sets the mutable columns of the row that is there. */
  function Overwritten(row: DbTimer, r: UpdateRequest): DbTimer {
    row.(callbackUrl := r.callbackUrl, payload := r.payload, retryPolicy := r.retryPolicy,
         timeoutSeconds := r.timeoutSeconds, attempts := 0)
  }

  /** A request that passed the version check. */
  function Apply(timers: Rows, r: Request): Option<Rows> {
    match r
    case UpdateMetadata(_) => Some(timers)
    case CreateTimer(timer) => Some(timers[timer.Key() := timer])
    case RangeDeleteAndInsert(lo, hi, inserts) => Some(Upsert(Outside(timers, lo, hi), inserts))
    case UpdateTimer(found, createdAt, namespace, request) =>
      if found !in timers then None
      else if request.executeAt == found.time then Some(timers[found := Overwritten(timers[found], request)])
      else
        var moved := Updated(found, createdAt, namespace, request);
        Some((timers - {found})[moved.Key() := moved])
    case DeleteTimer(found) =>
      if found !in timers then None else Some(timers - {found})
  }

  /** One batch conditional on shard_version = version, with the error the store derives from a refused batch. */
  function Execute(p: Partition, version: int, r: Request): (Partition, Outcome) {
    if p.shard.None? then
      (p, Failed(if r.UpdateMetadata? then ShardConditionFail else Generic))
    else if p.shard.value.version != version then
      (p, Failed(ShardConditionFail))
    else
      match Apply(p.timers, r)
      case None => (p, Failed(NotExists))
      case Some(timers) =>
        var shard := if r.UpdateMetadata? then Some(p.shard.value.(metadata := r.metadata)) else p.shard;
        (Partition(shard, timers), Done)
  }

  /** A refused batch changes nothing; an applied one found the caller's version and left it in place. */
  lemma ExecuteIsConditional(p: Partition, version: int, r: Request)
    ensures var (p', out) := Execute(p, version, r);
            && (out.Failed? ==> p' == p)
            && (out.Done? ==> p.shard.Some? && p.shard.value.version == version)
            && (p'.shard.Some? <==> p.shard.Some?)
            && (p.shard.Some? ==> p'.shard.value.version == p.shard.value.version
                                  && p'.shard.value.owner == p.shard.value.owner)
            && (out == Failed(ShardConditionFail) ==> p.shard.Some? ==> p.shard.value.version != version)
  {
  }

  class CassandraTimerStore {
    var shard: Option<ShardRow>
    var timers: Rows

    ghost predicate Valid() reads this {
      RowsValid(timers)
    }

    function Contents(): Partition reads this {
      Partition(shard, timers)
    }

    constructor ()
      ensures Valid() && Contents() == Partition(None, map[])
    {
      shard, timers := None, map[];
    }

    /** The read that opens ClaimShardOwnership. */
    method ReadShard() returns (row: Option<ShardRow>)
      ensures row == Contents().shard
    {
      row := shard;
    }

    /** The compare-and-set that closes ClaimShardOwnership, given what the read returned. */
    method ClaimShardOwnership(read: Option<ShardRow>, owner: string, now: int) returns (result: ClaimResult)
      requires Valid()
      modifies this`shard
      ensures Valid()
      ensures (shard, result) == Claim(old(shard), read, owner, now)
      ensures result.Claimed? <==>
                if read.None? then old(shard).None?
                else old(shard).Some? && old(shard).value.version == read.value.version
      ensures result.ClaimLost? ==> shard == old(shard)
      ensures result.Claimed? ==>
                && result.previous == read && shard.Some?
                && shard.value.version == result.current.version
                   == (if read.Some? then read.value.version + 1 else 1)
                && shard.value.owner == result.current.owner == owner
                && shard.value.claimedAt == result.current.claimedAt == now
                && shard.value.metadata
                   == (if old(shard).Some? then old(shard).value.metadata else Offset(GO_ZERO_TIME, ZERO_UUID))
                && result.current.metadata
                   == (if read.Some? then read.value.metadata else Offset(GO_ZERO_TIME, ZERO_UUID))
    {
      match read {
        case None =>
          if shard.Some? {
            return ClaimLost;
          }
          var row := ShardRow(1, owner, now, DEFAULT_METADATA);
          shard := Some(row);
          result := Claimed(None, row);
        case Some(r) =>
          if shard.None? || shard.value.version != r.version {
            return ClaimLost;
          }
          shard := Some(shard.value.(version := r.version + 1, owner := owner, claimedAt := now));
          result := Claimed(read, ShardRow(r.version + 1, owner, now, r.metadata));
      }
    }

    method UpdateShardMetadata(version: int, metadata: Offset) returns (out: Outcome)
      requires Valid()
      modifies this`shard
      ensures Valid()
      ensures (Contents(), out) == Execute(old(Contents()), version, UpdateMetadata(metadata))
      ensures out == if old(shard).Some? && old(shard).value.version == version then Done else Failed(ShardConditionFail)
      ensures out.Failed? ==> shard == old(shard)
      ensures out.Done? ==>
                shard == Some(ShardRow(version, old(shard).value.owner, old(shard).value.claimedAt, metadata))
    {
      if shard.None? || shard.value.version != version {
        return Failed(ShardConditionFail);
      }
      shard := Some(shard.value.(metadata := metadata));
      out := Done;
    }

    method CheckVersion(version: int) returns (out: Outcome)
      ensures out == if shard.None? then Failed(Generic)
                     else if shard.value.version != version then Failed(ShardConditionFail) else Done
    {
      if shard.None? {
        return Failed(Generic);
      }
      out := if shard.value.version == version then Done else Failed(ShardConditionFail);
    }

    method CreateTimer(version: int, timer: DbTimer) returns (out: Outcome)
      requires Valid()
      modifies this`timers
      ensures Valid()
      ensures (Contents(), out) == Execute(old(Contents()), version, Request.CreateTimer(timer))
      ensures out == if shard.None? then Failed(Generic)
                     else if shard.value.version != version then Failed(ShardConditionFail) else Done
      ensures out.Failed? ==> timers == old(timers)
      ensures out.Done? ==>
                var at := Offset(timer.executeAt, timer.uuid);
                at in timers && timers[at] == timer && SameElsewhere(old(timers), timers, {at})
    {
      out := CheckVersion(version);
      if out.Done? {
        timers := timers[timer.Key() := timer];
      }
    }

    /** Builds the batch row by row; nothing shows unless the version check passed. */
    method RangeDeleteWithBatchInsertTxn(version: int, lo: Offset, hi: Offset, inserts: seq<DbTimer>)
      returns (out: Outcome)
      requires Valid()
      modifies this`timers
      ensures Valid()
      ensures (Contents(), out) == Execute(old(Contents()), version, RangeDeleteAndInsert(lo, hi, inserts))
      ensures out == if shard.None? then Failed(Generic)
                     else if shard.value.version != version then Failed(ShardConditionFail) else Done
      ensures out.Failed? ==> timers == old(timers)
      ensures out.Done? ==>
                && (forall k :: LastAt(inserts, k) >= 0 ==> k in timers && timers[k] == inserts[LastAt(inserts, k)])
                && (forall k :: LastAt(inserts, k) < 0 ==>
                      && (k in timers <==> k in old(timers) && !(Leq(lo, k) && Leq(k, hi)))
                      && (k in timers ==> timers[k] == old(timers)[k]))
    {
      out := CheckVersion(version);
      if out.Done? {
        var batch := Outside(timers, lo, hi);
        var i := 0;
        while i < |inserts|
          invariant 0 <= i <= |inserts|
          invariant RowsValid(batch)
          invariant Upsert(Outside(timers, lo, hi), inserts) == Upsert(batch, inserts[i..])
        {
          batch := batch[inserts[i].Key() := inserts[i]];
          i := i + 1;
        }
        UpsertExactly(Outside(timers, lo, hi), inserts);
        timers := batch;
      }
    }

    /** Scans the rows carrying the timer id for the first one in the namespace. */
    method Lookup(namespace: string, timerId: string) returns (found: Option<Offset>)
      ensures found.None? ==> forall k :: k in timers ==> timers[k].namespace != namespace || timers[k].id != timerId
      ensures found.Some? ==>
                && found.value in timers
                && timers[found.value].namespace == namespace && timers[found.value].id == timerId
                && forall k :: k in timers && timers[k].namespace == namespace && timers[k].id == timerId ==>
                     Leq(found.value, k)
    {
      var remaining := timers.Keys;
      while remaining != {}
        invariant remaining <= timers.Keys
        invariant forall k :: k in timers.Keys - remaining ==> !timers[k].Named(namespace, timerId)
        decreases remaining
      {
        var k := Least(remaining);
        if timers[k].Named(namespace, timerId) {
          return Some(k);
        }
        remaining := remaining - {k};
      }
      found := None;
    }

    /** The batch of UpdateTimer for the row its lookup found. */
    method UpdateFound(version: int, found: Offset, createdAt: int, namespace: string, r: UpdateRequest)
      returns (out: Outcome)
      requires Valid()
      modifies this`timers
      ensures Valid()
      ensures (Contents(), out) == Execute(old(Contents()), version, UpdateTimer(found, createdAt, namespace, r))
      ensures out == if shard.None? then Failed(Generic)
                     else if shard.value.version != version then Failed(ShardConditionFail)
                     else if found !in old(timers) then Failed(NotExists) else Done
      ensures out.Failed? ==> timers == old(timers)
      ensures out.Done? ==>
                var at := Offset(r.executeAt, found.uuid);
                && at in timers && (at != found ==> found !in timers)
                && SameElsewhere(old(timers), timers, {found, at})
                && var (t, was) := (timers[at], old(timers)[found]);
                   && t.executeAt == r.executeAt && t.uuid == found.uuid && t.attempts == 0
                   && t.callbackUrl == r.callbackUrl && t.payload == r.payload
                   && t.retryPolicy == r.retryPolicy && t.timeoutSeconds == r.timeoutSeconds
                   && (at == found ==> t.namespace == was.namespace && t.id == was.id && t.createdAt == was.createdAt)
                   && (at != found ==> t.namespace == namespace && t.id == r.timerId && t.createdAt == createdAt)
    {
      out := CheckVersion(version);
      if out.Done? {
        if found !in timers {
          return Failed(NotExists);
        }
        if r.executeAt == found.time {
          timers := timers[found := Overwritten(timers[found], r)];
        } else {
          timers := timers - {found};
          var moved := Updated(found, createdAt, namespace, r);
          timers := timers[moved.Key() := moved];
        }
      }
    }

    /** The batch of DeleteTimer for the row its lookup found. */
    method DeleteFound(version: int, found: Offset) returns (out: Outcome)
      requires Valid()
      modifies this`timers
      ensures Valid()
      ensures (Contents(), out) == Execute(old(Contents()), version, DeleteTimer(found))
      ensures out == if shard.None? then Failed(Generic)
                     else if shard.value.version != version then Failed(ShardConditionFail)
                     else if found !in old(timers) then Failed(NotExists) else Done
      ensures out.Failed? ==> timers == old(timers)
      ensures out.Done? ==> found !in timers && SameElsewhere(old(timers), timers, {found})
    {
      out := CheckVersion(version);
      if out.Done? {
        if found !in timers {
          return Failed(NotExists);
        }
        timers := timers - {found};
      }
    }

    method RangeGetTimers(lo: Offset, hi: Offset, limit: nat) returns (page: seq<Offset>)
      ensures page == RangeGet(timers.Keys, lo, hi, limit)
    {
      page := QueryRange(timers.Keys, lo, hi, limit);
    }

    /** Cassandra ignores the limit, and nothing checks the version. */
    method RangeDeleteWithLimit(lo: Offset, hi: Offset, limit: int)
      requires Valid()
      modifies this`timers
      ensures Valid()
      ensures timers.Keys == old(timers.Keys) - InRange(old(timers.Keys), lo, hi)
      ensures forall k :: k in timers ==> timers[k] == old(timers)[k]
    {
      timers := Outside(timers, lo, hi);
    }
  }
}
