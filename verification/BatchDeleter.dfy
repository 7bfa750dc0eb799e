/** The batch deleter of one owner: remembers the last announced offset, commits it fenced, deletes up to it unfenced. */
module BatchDeleter {
  import opened TimerModel
  import opened SortedTable
  import opened CassandraStore
  import opened ShardOwnership

  class BatchDeleterImpl {
    const shard: ShardOwnershipImpl
    const store: CassandraTimerStore
    var receivedOffset: Option<Offset>
    var committedOffset: Option<Offset>

    /** What was committed is what the owner caches as its metadata. */
    ghost predicate Valid() reads this, shard, store {
      && shard.store == store && shard.Valid() && store.Valid()
      && (committedOffset.Some? ==> shard.shardMetadata == committedOffset.value)
    }

    constructor (shard: ShardOwnershipImpl)
      requires shard.Valid() && shard.store.Valid()
      ensures Valid() && this.shard == shard && store == shard.store
      ensures receivedOffset == None && committedOffset == None
    {
      this.shard := shard;
      store := shard.store;
      receivedOffset, committedOffset := None, None;
    }

    method ReceiveOffset(offset: Option<Offset>)
      requires Valid()
      modifies this`receivedOffset
      ensures Valid()
      ensures receivedOffset == if offset.Some? then offset else old(receivedOffset)
    {
      if offset.Some? {
        receivedOffset := offset;
      }
    }

    /** Commits the received offset under the owner's version; committedOffset moves only when that succeeded. */
    method CommitOffset(reachable: bool)
      requires Valid()
      modifies this`committedOffset
      modifies shard`shardMetadata, shard`refused, shard`closeCount, shard`onceDone, store`shard
      ensures Valid()
      ensures receivedOffset.None? || !reachable ==>
                store.Contents() == old(store.Contents()) && committedOffset == old(committedOffset)
      ensures receivedOffset.None? ==> shard.View() == old(shard.View())
      ensures receivedOffset.Some? && reachable ==>
                var (after, out) := Execute(old(store.Contents()), shard.shardVersion,
                                            UpdateMetadata(receivedOffset.value));
                && store.Contents() == after
                && shard.View() == AfterUpdate(old(shard.View()), receivedOffset.value, out)
                && committedOffset == if out.Done? then receivedOffset else old(committedOffset)
      ensures receivedOffset.Some? && reachable ==>
                if old(store.shard).Some? && old(store.shard).value.version == shard.shardVersion then
                  && committedOffset == receivedOffset && shard.shardMetadata == receivedOffset.value
                  && store.shard.Some? && store.shard.value.metadata == receivedOffset.value
                else
                  committedOffset == old(committedOffset) && store.shard == old(store.shard) && shard.onceDone
    {
      if receivedOffset.None? {
        return;
      }
      var out := shard.UpdateShardMetadata(receivedOffset.value, reachable);
      if out.Failed? {
        return;
      }
      committedOffset := receivedOffset;
    }

    /** Removes every row up to the received offset, whoever owns the shard by now. */
    method DeleteTimers(reachable: bool, limit: int)
      requires Valid()
      modifies store`timers
      ensures Valid()
      ensures receivedOffset.None? || !reachable ==> store.timers == old(store.timers)
      ensures receivedOffset.Some? && reachable ==>
                && store.timers.Keys == old(store.timers.Keys)
                                        - InRange(old(store.timers.Keys), Offset(1_000_000_000, 0), receivedOffset.value)
                && forall k :: k in store.timers ==> store.timers[k] == old(store.timers)[k]
      ensures store.shard == old(store.shard)
    {
      if receivedOffset.None? || !reachable {
        return;
      }
      store.RangeDeleteWithLimit(TABLE_START, receivedOffset.value, limit);
    }
  }
}
