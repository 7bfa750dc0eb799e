/** The owner's side of a claim: the version it fences with, the metadata it caches, and the loss signal. */
module ShardOwnership {
  import opened TimerModel
  import opened CassandraStore

  /** What an owner knows. Refused: some fenced metadata update of its own failed on the version. */
  datatype Handle = Handle(version: int, metadata: Offset, refused: bool, lossSignalled: bool)

  function NewHandle(row: ShardRow): Handle {
    Handle(row.version, row.metadata, false, false)
  }

  /** The handle after a fenced metadata update came back. */
  function AfterUpdate(h: Handle, metadata: Offset, out: Outcome): Handle {
    if out == Failed(ShardConditionFail) then h.(refused := true, lossSignalled := true)
    else if out.Failed? then h
    else h.(metadata := metadata)
  }

  class ShardOwnershipImpl {
    const store: CassandraTimerStore
    const shardVersion: int
    var shardMetadata: Offset
    var refused: bool
    var closeCount: nat
    var onceDone: bool

    ghost predicate Valid() reads this {
      closeCount <= 1 && (onceDone <==> closeCount == 1) && (refused ==> onceDone)
    }

    function View(): Handle reads this {
      Handle(shardVersion, shardMetadata, refused, onceDone)
    }

    constructor (store: CassandraTimerStore, claimed: ShardRow)
      ensures Valid() && View() == NewHandle(claimed) && this.store == store
      ensures shardVersion == claimed.version && shardMetadata == claimed.metadata && !refused && !onceDone
    {
      this.store := store;
      shardVersion := claimed.version;
      shardMetadata := claimed.metadata;
      refused, closeCount, onceDone := false, 0, false;
    }

    /** sync.Once around close: the loss channel is closed at most once however often this runs. */
    method ReleaseOwnership()
      requires Valid()
      modifies this`closeCount, this`onceDone
      ensures Valid() && View() == old(View()).(lossSignalled := true)
      ensures onceDone && closeCount == 1
    {
      if !onceDone {
        closeCount := closeCount + 1;
        onceDone := true;
      }
    }

    /** reachable is false when the driver fails before the store sees the request. */
    method UpdateShardMetadata(metadata: Offset, reachable: bool) returns (out: Outcome)
      requires Valid() && store.Valid()
      modifies this`shardMetadata, this`refused, this`closeCount, this`onceDone, store`shard
      ensures Valid() && store.Valid()
      ensures reachable ==> (store.Contents(), out)
                            == Execute(old(store.Contents()), shardVersion, UpdateMetadata(metadata))
      ensures !reachable ==> store.Contents() == old(store.Contents()) && out == Failed(Generic)
      ensures View() == AfterUpdate(old(View()), metadata, out)
      ensures out.Done? <==> reachable && old(store.shard).Some? && old(store.shard).value.version == shardVersion
      ensures out == Failed(ShardConditionFail) <==>
                reachable && (old(store.shard).None? || old(store.shard).value.version != shardVersion)
      ensures onceDone == (old(onceDone) || out == Failed(ShardConditionFail))
      ensures refused == (old(refused) || out == Failed(ShardConditionFail))
      ensures shardMetadata == if out.Done? then metadata else old(shardMetadata)
      ensures out.Done? ==> store.shard.Some? && store.shard.value.metadata == metadata
      ensures out.Failed? ==> store.shard == old(store.shard)
    {
      out := Failed(Generic);
      if reachable {
        out := store.UpdateShardMetadata(shardVersion, metadata);
      }
      if out.Failed? {
        if out.error.ShardConditionFail? {
          ReleaseOwnership();
          refused := true;
        }
        return;
      }
      shardMetadata := metadata;
    }
  }

  /** newShardOwnershipImpl: no owner without a claim that took effect. seen is what the claim's read returned. */
  method NewShardOwnership(store: CassandraTimerStore, seen: Option<ShardRow>, address: string, now: int)
    returns (owner: ShardOwnershipImpl?)
    requires store.Valid()
    modifies store`shard
    ensures store.Valid()
    ensures var (shard, result) := Claim(old(store.shard), seen, address, now);
            && store.shard == shard
            && (owner != null <==> result.Claimed?)
            && (owner != null ==> fresh(owner) && owner.Valid() && owner.store == store
                                  && owner.View() == NewHandle(result.current))
    ensures owner != null <==>
              if seen.None? then old(store.shard).None?
              else old(store.shard).Some? && old(store.shard).value.version == seen.value.version
    ensures owner != null ==>
              && store.shard.Some? && store.shard.value.version == owner.shardVersion
              && owner.shardVersion == (if seen.Some? then seen.value.version + 1 else 1)
              && owner.shardMetadata == (if seen.Some? then seen.value.metadata else DEFAULT_METADATA)
              && !owner.refused && !owner.onceDone
  {
    var result := store.ClaimShardOwnership(seen, address, now);
    if result.ClaimLost? {
      return null;
    }
    owner := new ShardOwnershipImpl(store, result.current);
  }
}
