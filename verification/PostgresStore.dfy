/**
  The PostgreSQL store's transactions on one shard. The table has two unique keys: the position
  (execute_at, uuid) and the name (namespace, id). A transaction works on its own copy of the rows and
  replaces the table when it commits.
 */
module PostgresStore {
  import opened TimerModel
  import opened SortedTable

  datatype Name = Name(namespace: string, id: string)

  function NameOf(t: DbTimer): Name {
    Name(t.namespace, t.id)
  }

  /** The timer a caller means by a namespace and an id. */
  ghost predicate IsNamed(t: DbTimer, namespace: string, id: string) {
    t.namespace == namespace && t.id == id
  }

  /** The unique index on names. */
  ghost predicate NamesUnique(rows: Rows) {
    forall j, k :: j in rows && k in rows && NameOf(rows[j]) == NameOf(rows[k]) ==> j == k
  }

  ghost predicate TableValid(rows: Rows) {
    RowsValid(rows) && NamesUnique(rows)
  }

  ghost predicate IsByName(rows: Rows, m: map<Name, DbTimer>) {
    && (forall k :: k in rows ==> NameOf(rows[k]) in m && m[NameOf(rows[k])] == rows[k])
    && (forall n :: n in m ==> exists k :: k in rows && NameOf(rows[k]) == n)
  }

  lemma ByNameExists(rows: Rows)
    requires NamesUnique(rows)
    ensures exists m :: IsByName(rows, m)
  {
    var m := map k | k in rows :: NameOf(rows[k]) := rows[k];
    forall k | k in rows ensures NameOf(rows[k]) in m && m[NameOf(rows[k])] == rows[k] {
      var n := NameOf(rows[k]);
      assert n in m;
    }
    assert IsByName(rows, m);
  }

  /** The table as its callers know it: timers by name. */
  ghost function ByName(rows: Rows): (m: map<Name, DbTimer>)
    requires NamesUnique(rows)
    ensures IsByName(rows, m)
  {
    ByNameExists(rows);
    var m :| IsByName(rows, m);
    m
  }

  /** ByName is the only map with one entry per row. */
  lemma ByNameIs(rows: Rows, m: map<Name, DbTimer>)
    requires NamesUnique(rows) && IsByName(rows, m)
    ensures ByName(rows) == m
  {
    var b := ByName(rows);
    forall n ensures n in b <==> n in m {
      if n in m {
        var k :| k in rows && NameOf(rows[k]) == n;
      }
      if n in b {
        var k :| k in rows && NameOf(rows[k]) == n;
      }
    }
  }

  /** A row with either unique key of the timer. */
  ghost predicate Conflicts(rows: Rows, t: DbTimer) {
    t.Key() in rows || exists k :: k in rows && NameOf(rows[k]) == NameOf(t)
  }

  lemma ByNameHasRow(rows: Rows, n: Name) returns (k: Offset)
    requires NamesUnique(rows) && n in ByName(rows)
    ensures k in rows && NameOf(rows[k]) == n && ByName(rows)[n] == rows[k]
  {
    k :| k in rows && NameOf(rows[k]) == n;
  }

  /** Putting a timer in place of the row of its name, if any, is a map update by name. */
  lemma PutByName(rows: Rows, rows': Rows, t: DbTimer)
    requires NamesUnique(rows) && NamesUnique(rows')
    requires t.Key() in rows' && rows'[t.Key()] == t
    requires forall k :: k in rows' && k != t.Key() ==> k in rows && rows'[k] == rows[k]
    requires forall k :: k in rows && NameOf(rows[k]) != NameOf(t) ==> k in rows' && rows'[k] == rows[k]
    ensures ByName(rows') == ByName(rows)[NameOf(t) := t]
  {
    var m := ByName(rows)[NameOf(t) := t];
    forall k | k in rows' ensures NameOf(rows'[k]) in m && m[NameOf(rows'[k])] == rows'[k] {
    }
    forall n | n in m ensures exists k :: k in rows' && NameOf(rows'[k]) == n {
      if n == NameOf(t) {
        assert NameOf(rows'[t.Key()]) == n;
      } else {
        var k := ByNameHasRow(rows, n);
        assert NameOf(rows'[k]) == n;
      }
    }
    ByNameIs(rows', m);
  }

  /** Replacing the row of a name keeps both keys unique. */
  lemma ReplaceKeepsValid(rows: Rows, found: Offset, t: DbTimer)
    requires TableValid(rows) && found in rows && NameOf(rows[found]) == NameOf(t)
    requires t.Key() == found || t.Key() !in rows
    ensures TableValid((rows - {found})[t.Key() := t])
  {
    var rows' := (rows - {found})[t.Key() := t];
    assert forall k :: k in rows' ==> k == t.Key() || (k in rows && k != found && rows'[k] == rows[k]);
  }

  lemma ReplaceByName(rows: Rows, found: Offset, t: DbTimer)
    requires TableValid(rows) && found in rows && NameOf(rows[found]) == NameOf(t)
    requires t.Key() == found || t.Key() !in rows
    ensures var rows' := (rows - {found})[t.Key() := t];
            TableValid(rows') && ByName(rows') == ByName(rows)[NameOf(t) := t]
  {
    ReplaceKeepsValid(rows, found, t);
    PutByName(rows, (rows - {found})[t.Key() := t], t);
  }

  /** Inserting a timer that conflicts with nothing. */
  lemma InsertKeepsValid(rows: Rows, t: DbTimer)
    requires TableValid(rows) && !Conflicts(rows, t)
    ensures TableValid(rows[t.Key() := t]) && |rows[t.Key() := t]| == |rows| + 1
  {
    var rows' := rows[t.Key() := t];
    assert forall k :: k in rows' ==> k == t.Key() || (k in rows && rows'[k] == rows[k]);
    assert rows'.Keys == rows.Keys + {t.Key()};
  }

  lemma RemoveByName(rows: Rows, found: Offset)
    requires TableValid(rows) && found in rows
    ensures TableValid(rows - {found}) && ByName(rows - {found}) == ByName(rows) - {NameOf(rows[found])}
  {
    var rows' := rows - {found};
    var m := ByName(rows) - {NameOf(rows[found])};
    forall k | k in rows' ensures NameOf(rows'[k]) in m && m[NameOf(rows'[k])] == rows'[k] {
      assert rows'[k] == rows[k];
    }
    forall n | n in m ensures exists k :: k in rows' && NameOf(rows'[k]) == n {
      var k := ByNameHasRow(rows, n);
      assert k in rows' && NameOf(rows'[k]) == n;
    }
    ByNameIs(rows', m);
  }

  // ---------- batch inserts ----------

  /** Plain INSERTs one after the other; the first conflict fails the transaction. */
  ghost function InsertAll(rows: Rows, timers: seq<DbTimer>): Option<Rows>
    decreases |timers|
  {
    if timers == [] then Some(rows)
    else if Conflicts(rows, timers[0]) then None
    else InsertAll(rows[timers[0].Key() := timers[0]], timers[1..])
  }

  /** Nothing in the batch clashes with the table, nor with the rest of the batch. */
  ghost predicate Insertable(rows: Rows, timers: seq<DbTimer>) {
    && (forall i :: 0 <= i < |timers| ==> !Conflicts(rows, timers[i]))
    && (forall i, j :: 0 <= i < j < |timers| ==>
          timers[i].Key() != timers[j].Key() && NameOf(timers[i]) != NameOf(timers[j]))
  }

  /** The old rows and the batch, each at its position, and nothing else. */
  ghost predicate Inserted(rows: Rows, timers: seq<DbTimer>, rows': Rows) {
    && |rows'| == |rows| + |timers|
    && (forall k :: k in rows ==> k in rows' && rows'[k] == rows[k])
    && (forall i :: 0 <= i < |timers| ==> timers[i].Key() in rows' && rows'[timers[i].Key()] == timers[i])
    && (forall k :: k in rows' ==> k in rows || exists i :: 0 <= i < |timers| && timers[i].Key() == k)
  }

  lemma ConflictsAfterInsert(rows: Rows, t: DbTimer, u: DbTimer)
    requires !Conflicts(rows, t)
    ensures Conflicts(rows[t.Key() := t], u)
            <==> Conflicts(rows, u) || t.Key() == u.Key() || NameOf(t) == NameOf(u)
  {
    var rows' := rows[t.Key() := t];
    assert t.Key() in rows' && rows'[t.Key()] == t;
    if k :| k in rows && NameOf(rows[k]) == NameOf(u) {
      assert k in rows' && rows'[k] == rows[k];
    }
    if k :| k in rows' && NameOf(rows'[k]) == NameOf(u) {
      assert k != t.Key() ==> k in rows && rows[k] == rows'[k];
    }
  }

  /** A batch goes in exactly when it is insertable; then it adds its rows, and one row for each timer. */
  lemma {:induction false} InsertAllExactly(rows: Rows, timers: seq<DbTimer>)
    requires TableValid(rows)
    ensures InsertAll(rows, timers).Some? <==> Insertable(rows, timers)
    ensures InsertAll(rows, timers).Some? ==>
              TableValid(InsertAll(rows, timers).value) && Inserted(rows, timers, InsertAll(rows, timers).value)
    decreases |timers|
  {
    if timers != [] && !Conflicts(rows, timers[0]) {
      var t, rest := timers[0], timers[1..];
      var next := rows[t.Key() := t];
      InsertKeepsValid(rows, t);
      InsertAllExactly(next, rest);
      forall i | 0 <= i < |rest| ensures Conflicts(next, rest[i])
                                         <==> Conflicts(rows, timers[i + 1]) || t.Key() == timers[i + 1].Key()
                                              || NameOf(t) == NameOf(timers[i + 1]) {
        ConflictsAfterInsert(rows, t, rest[i]);
      }
      InsertableSplits(rows, timers);
      if InsertAll(rows, timers).Some? {
        InsertedRows(rows, timers, InsertAll(rows, timers).value);
      }
    }
  }

  lemma OutsideCount(rows: Rows, lo: Offset, hi: Offset)
    requires TableValid(rows)
    ensures |Outside(rows, lo, hi)| == |rows| - |InRange(rows.Keys, lo, hi)|
    ensures TableValid(Outside(rows, lo, hi))
  {
    var kept, gone := Outside(rows, lo, hi), InRange(rows.Keys, lo, hi);
    assert kept.Keys == rows.Keys - gone && gone <= rows.Keys;
    assert |kept.Keys| == |kept| && |rows.Keys| == |rows|;
  }

  lemma InsertedRows(rows: Rows, timers: seq<DbTimer>, rows': Rows)
    requires timers != [] && !Conflicts(rows, timers[0])
    requires Inserted(rows[timers[0].Key() := timers[0]], timers[1..], rows')
    ensures Inserted(rows, timers, rows')
  {
    var t, rest := timers[0], timers[1..];
    assert forall i :: 0 < i < |timers| ==> timers[i] == rest[i - 1];
    forall k | k in rows' && k !in rows ensures exists i :: 0 <= i < |timers| && timers[i].Key() == k {
      if k != t.Key() {
        var i :| 0 <= i < |rest| && rest[i].Key() == k;
        assert timers[i + 1].Key() == k;
      }
    }
  }

  lemma InsertableSplits(rows: Rows, timers: seq<DbTimer>)
    requires timers != [] && !Conflicts(rows, timers[0])
    requires forall i :: 0 <= i < |timers| - 1 ==>
               (Conflicts(rows[timers[0].Key() := timers[0]], timers[1..][i])
                <==> Conflicts(rows, timers[i + 1]) || timers[0].Key() == timers[i + 1].Key()
                     || NameOf(timers[0]) == NameOf(timers[i + 1]))
    ensures Insertable(rows, timers) <==> Insertable(rows[timers[0].Key() := timers[0]], timers[1..])
  {
    var rest, next := timers[1..], rows[timers[0].Key() := timers[0]];
    if Insertable(next, rest) {
      forall i | 0 <= i < |timers| ensures !Conflicts(rows, timers[i]) {
        assert i > 0 ==> !Conflicts(next, rest[i - 1]);
      }
      forall i, j | 0 <= i < j < |timers|
        ensures timers[i].Key() != timers[j].Key() && NameOf(timers[i]) != NameOf(timers[j])
      {
        assert !Conflicts(next, rest[j - 1]);
        assert i > 0 ==> timers[i] == rest[i - 1] && timers[j] == rest[j - 1];
      }
    }
  }

  /** The row at k took on the request and kept its name, uuid, creation time and attempts; no other row changed. */
  ghost predicate UpdatesRow(before: Rows, after: Rows, k: Offset, namespace: string, r: UpdateRequest)
    requires k in before
  {
    var was := before[k];
    var at := Offset(r.executeAt, was.uuid);
    && at in after && (at != k ==> k !in after) && SameElsewhere(before, after, {k, at})
    && var t := after[at];
       && t.namespace == namespace && t.id == r.timerId
       && t.uuid == was.uuid && t.createdAt == was.createdAt && t.attempts == was.attempts
       && t.executeAt == r.executeAt && t.callbackUrl == r.callbackUrl && t.payload == r.payload
       && t.retryPolicy == r.retryPolicy && t.timeoutSeconds == r.timeoutSeconds
  }

  /** Deleting a row and inserting its changed copy. */
  lemma ReplaceUpdatesRow(rows: Rows, found: Offset, t: DbTimer, namespace: string, r: UpdateRequest)
    requires TableValid(rows) && found in rows && IsNamed(rows[found], namespace, r.timerId)
    requires t == DbTimer(namespace, r.timerId, r.executeAt, rows[found].uuid, r.callbackUrl, r.payload,
                          r.retryPolicy, r.timeoutSeconds, rows[found].createdAt, rows[found].attempts)
    ensures UpdatesRow(rows, (rows - {found})[t.Key() := t], found, namespace, r)
    ensures forall k :: k in rows && IsNamed(rows[k], namespace, r.timerId) ==> k == found
  {
    forall k | k in rows && IsNamed(rows[k], namespace, r.timerId) ensures k == found {
      assert NameOf(rows[k]) == NameOf(rows[found]);
    }
  }

  // ---------- the store ----------

  class PostgreSQLTimerStore {
    var shard: Option<ShardRow>
    var rows: Rows

    ghost predicate Valid() reads this {
      TableValid(rows)
    }

    constructor ()
      ensures Valid() && shard == None && rows == map[]
    {
      shard, rows := None, map[];
    }

    /** The lookup through the unique index on names. */
    method Find(namespace: string, id: string) returns (found: Option<Offset>)
      requires Valid()
      ensures found.Some? ==> found.value in rows && IsNamed(rows[found.value], namespace, id)
      ensures found.None? ==> forall k :: k in rows ==> !IsNamed(rows[k], namespace, id)
      ensures found.Some? <==> Name(namespace, id) in ByName(rows)
      ensures found.Some? ==> ByName(rows)[Name(namespace, id)] == rows[found.value]
    {
      if k :| k in rows && NameOf(rows[k]) == Name(namespace, id) {
        return Some(k);
      }
      return None;
    }

    /** INSERT ... ON CONFLICT on the name: moves the row of that name, unless another row sits at its new position. */
    method CreateTimer(version: int, t: DbTimer, commits: bool) returns (out: Outcome)
      requires Valid()
      modifies this`rows
      ensures Valid()
      ensures out.Failed? ==> rows == old(rows)
      ensures shard.None? || shard.value.version != version ==> out == Failed(ShardConditionFail)
      ensures var at := Offset(t.executeAt, t.uuid);
              shard.Some? && shard.value.version == version ==>
                (out.Done? <==> commits && (at in old(rows) ==> IsNamed(old(rows)[at], t.namespace, t.id)))
                && (out.Failed? ==> out == Failed(Generic))
      ensures out.Done? ==>
                var at := Offset(t.executeAt, t.uuid);
                && at in rows && rows[at] == t
                && (forall k :: k in old(rows) && !IsNamed(old(rows)[k], t.namespace, t.id) ==> k in rows)
                && (forall k :: k in rows && k != at ==>
                      k in old(rows) && rows[k] == old(rows)[k] && !IsNamed(rows[k], t.namespace, t.id))
      ensures out.Done? ==> ByName(rows) == ByName(old(rows))[NameOf(t) := t]
    {
      if shard.None? || shard.value.version != version {
        return Failed(ShardConditionFail);
      }
      var found := Find(t.namespace, t.id);
      if t.Key() in rows && found != Some(t.Key()) {
        return Failed(Generic);
      }
      if !commits {
        return Failed(Generic);
      }
      if found.Some? {
        ReplaceByName(rows, found.value, t);
        rows := (rows - {found.value})[t.Key() := t];
      } else {
        InsertKeepsValid(rows, t);
        PutByName(rows, rows[t.Key() := t], t);
        rows := rows[t.Key() := t];
      }
      out := Done;
    }

    /** What an update makes of a timer; uuid, creation time and attempts stay. */
    static function Updated(t: DbTimer, r: UpdateRequest): DbTimer {
      t.(executeAt := r.executeAt, callbackUrl := r.callbackUrl, payload := r.payload,
         retryPolicy := r.retryPolicy, timeoutSeconds := r.timeoutSeconds)
    }

    /**
      Updates in place when the time is unchanged, otherwise deletes the row and inserts it at its new position.
      To callers it is a map update by name, and any failure leaves the table as it was.
     */
    method UpdateTimer(version: int, namespace: string, r: UpdateRequest, commits: bool) returns (out: Outcome)
      requires Valid()
      modifies this`rows
      ensures Valid()
      ensures out.Failed? ==> rows == old(rows)
      ensures shard.None? || shard.value.version != version ==> out == Failed(ShardConditionFail)
      ensures shard.Some? && shard.value.version == version ==>
                (out == Failed(NotExists) <==> forall k :: k in old(rows) ==> !IsNamed(old(rows)[k], namespace, r.timerId))
      ensures forall k :: k in old(rows) && IsNamed(old(rows)[k], namespace, r.timerId) ==>
                var (was, at) := (old(rows)[k], Offset(r.executeAt, old(rows)[k].uuid));
                && (shard.Some? && shard.value.version == version ==>
                      (out.Done? <==> commits && (r.executeAt != was.executeAt ==> at !in old(rows)))
                      && (out.Failed? ==> out == Failed(Generic)))
                && (out.Done? ==> UpdatesRow(old(rows), rows, k, namespace, r))
      ensures out.Done? ==>
                var (name, before) := (Name(namespace, r.timerId), ByName(old(rows)));
                name in before && ByName(rows) == before[name := Updated(before[name], r)]
    {
      if shard.None? || shard.value.version != version {
        return Failed(ShardConditionFail);
      }
      var found := Find(namespace, r.timerId);
      if found.None? {
        return Failed(NotExists);
      }
      var current := rows[found.value];
      var work := rows;
      if current.executeAt != r.executeAt {
        work := work - {found.value};
        var moved := DbTimer(namespace, r.timerId, r.executeAt, current.uuid, r.callbackUrl, r.payload,
                             r.retryPolicy, r.timeoutSeconds, current.createdAt, current.attempts);
        if moved.Key() in work {
          return Failed(Generic);
        }
        work := work[moved.Key() := moved];
      } else {
        var changed := current.(callbackUrl := r.callbackUrl, payload := r.payload,
                                retryPolicy := r.retryPolicy, timeoutSeconds := r.timeoutSeconds);
        work := work[found.value := changed];
        assert work == (rows - {found.value})[changed.Key() := changed];
      }
      ReplaceByName(rows, found.value, Updated(current, r));
      ReplaceUpdatesRow(rows, found.value, Updated(current, r), namespace, r);
      if !commits {
        return Failed(Generic);
      }
      rows := work;
      out := Done;
    }

    method DeleteTimer(version: int, namespace: string, id: string, commits: bool) returns (out: Outcome)
      requires Valid()
      modifies this`rows
      ensures Valid()
      ensures out.Failed? ==> rows == old(rows)
      ensures shard.None? || shard.value.version != version ==> out == Failed(ShardConditionFail)
      ensures shard.Some? && shard.value.version == version ==>
                (out == Failed(NotExists) <==> forall k :: k in old(rows) ==> !IsNamed(old(rows)[k], namespace, id))
      ensures forall k :: k in old(rows) && IsNamed(old(rows)[k], namespace, id) ==>
                && (shard.Some? && shard.value.version == version ==>
                      (out.Done? <==> commits) && (out.Failed? ==> out == Failed(Generic)))
                && (out.Done? ==> k !in rows && SameElsewhere(old(rows), rows, {k}))
      ensures out.Done? ==> ByName(rows) == ByName(old(rows)) - {Name(namespace, id)}
    {
      if shard.None? || shard.value.version != version {
        return Failed(ShardConditionFail);
      }
      var found := Find(namespace, id);
      if found.None? {
        return Failed(NotExists);
      }
      if !commits {
        return Failed(Generic);
      }
      RemoveByName(rows, found.value);
      rows := rows - {found.value};
      out := Done;
    }

    /** Deletes a range and inserts a batch, all or nothing; inserts inside the range survive. */
    method RangeDeleteWithBatchInsertTxn(version: int, lo: Offset, hi: Offset, timers: seq<DbTimer>, commits: bool)
      returns (out: Outcome, deletedCount: nat)
      requires Valid()
      modifies this`rows
      ensures Valid()
      ensures out.Failed? ==> rows == old(rows)
      ensures shard.None? ==> out == Failed(Generic)
      ensures shard.Some? && shard.value.version != version ==> out == Failed(ShardConditionFail)
      ensures out.Done? <==> shard.Some? && shard.value.version == version && commits
                             && Insertable(Outside(old(rows), lo, hi), timers)
      ensures out.Done? ==> Inserted(Outside(old(rows), lo, hi), timers, rows)
      ensures out.Done? ==> deletedCount == |InRange(old(rows).Keys, lo, hi)|
      ensures out.Done? ==> |rows| == |old(rows)| - deletedCount + |timers|
    {
      deletedCount := 0;
      if shard.None? {
        return Failed(Generic), 0;
      }
      if shard.value.version != version {
        return Failed(ShardConditionFail), 0;
      }
      var kept := Outside(rows, lo, hi);
      var gone := InRange(rows.Keys, lo, hi);
      deletedCount := |gone|;
      OutsideCount(rows, lo, hi);
      InsertAllExactly(kept, timers);
      var work := kept;
      var i := 0;
      while i < |timers|
        invariant 0 <= i <= |timers|
        invariant InsertAll(kept, timers) == InsertAll(work, timers[i..])
      {
        var t := timers[i];
        if t.Key() in work || exists k :: k in work && NameOf(work[k]) == NameOf(t) {
          return Failed(Generic), 0;
        }
        work := work[t.Key() := t];
        i := i + 1;
      }
      if !commits {
        return Failed(Generic), 0;
      }
      rows := work;
      out := Done;
    }

    /** Deletes the first rows of the range, at most limit of them. */
    method RangeDeleteWithLimit(lo: Offset, hi: Offset, limit: nat) returns (deletedCount: nat)
      requires Valid()
      modifies this`rows
      ensures Valid()
      ensures var page := RangeGet(old(rows).Keys, lo, hi, limit);
              && deletedCount == |page|
              && rows == old(rows) - set k | k in page
    {
      var page := QueryRange(rows.Keys, lo, hi, limit);
      deletedCount := |page|;
      rows := rows - set k | k in page;
    }
  }
}
