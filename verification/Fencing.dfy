/**
  Any number of instances claim one shard, write under the versions they believe in, and lose the shard.
  The read and the compare-and-set of a claim are separate steps, so everything may happen in between.
 */
module Fencing {
  import opened TimerModel
  import opened CassandraStore
  import opened ShardOwnership

  /** A successful conditional request; a claim comes with the metadata it handed to its claimer. */
  datatype Event =
    | Claimed(claimer: nat, version: int, metadata: Offset)
    | Wrote(version: int, request: Request)

  datatype State = State(
    store: Partition,
    seen: map<nat, Option<ShardRow>>,
    handles: map<nat, Handle>,
    log: seq<Event>)

  datatype Step =
    | Read(claimer: nat)
    | CompareAndSet(claimer: nat, owner: string, now: int)
    | LockedWrite(version: int, request: Request)
    | OwnerUpdate(claimer: nat, metadata: Offset)
    | Release(claimer: nat)
    | UnlockedWrite(timers: Rows)

  ghost predicate Init(s: State) {
    s == State(Partition(None, s.store.timers), map[], map[], [])
  }

  function Logged(log: seq<Event>, version: int, r: Request, out: Outcome): seq<Event> {
    if out.Done? then log + [Wrote(version, r)] else log
  }

  ghost predicate Next(s: State, step: Step, s': State) {
    match step
    case Read(c) =>
      c !in s.handles && s' == s.(seen := s.seen[c := s.store.shard])
    case CompareAndSet(c, owner, now) =>
      && c in s.seen && c !in s.handles
      && var (shard, result) := Claim(s.store.shard, s.seen[c], owner, now);
         s' == if result.Claimed? then
                 s.(store := s.store.(shard := shard),
                    handles := s.handles[c := NewHandle(result.current)],
                    log := s.log + [Event.Claimed(c, result.current.version, result.current.metadata)])
               else s
    case LockedWrite(version, r) =>
      var (store, out) := Execute(s.store, version, r);
      s' == s.(store := store, log := Logged(s.log, version, r, out))
    case OwnerUpdate(c, m) =>
      && c in s.handles
      && var h := s.handles[c];
         var (store, out) := Execute(s.store, h.version, UpdateMetadata(m));
         s' == s.(store := store, handles := s.handles[c := AfterUpdate(h, m, out)],
                  log := Logged(s.log, h.version, UpdateMetadata(m), out))
    case Release(c) =>
      c in s.handles && s' == s.(handles := s.handles[c := s.handles[c].(lossSignalled := true)])
    case UnlockedWrite(timers) =>
      s' == s.(store := s.store.(timers := timers))
  }

  ghost predicate IsRun(run: seq<State>, steps: seq<Step>) {
    && |run| == |steps| + 1
    && Init(run[0])
    && forall i :: 0 <= i < |steps| ==> Next(run[i], steps[i], run[i + 1])
  }

  /** How many claims a log holds. */
  function Claims(log: seq<Event>): nat {
    if log == [] then 0
    else Claims(log[..|log| - 1]) + if log[|log| - 1].Claimed? then 1 else 0
  }

  /** The n-th claim gets version n, and a write gets in only under the version claimed last. */
  ghost predicate Fenced(log: seq<Event>) {
    forall i :: 0 <= i < |log| ==>
      log[i].version >= 1 && log[i].version == Claims(log[..i]) + if log[i].Claimed? then 1 else 0
  }

  ghost predicate RecordInv(shard: Option<ShardRow>, log: seq<Event>) {
    && Fenced(log)
    && (shard.None? ==> Claims(log) == 0)
    && (shard.Some? ==> shard.value.version == Claims(log) >= 1)
  }

  /** Each owner holds the version of its one claim, and is refused only once that version is history. */
  ghost predicate OwnersInv(handles: map<nat, Handle>, log: seq<Event>) {
    && (forall c :: c in handles ==> 1 <= handles[c].version <= Claims(log))
    && (forall c :: c in handles && handles[c].refused ==> handles[c].version < Claims(log))
    && (forall c :: c in handles && handles[c].refused ==> handles[c].lossSignalled)
    && (forall i :: 0 <= i < |log| && log[i].Claimed? ==>
          log[i].claimer in handles && handles[log[i].claimer].version == log[i].version)
  }

  ghost predicate Inv(s: State) {
    RecordInv(s.store.shard, s.log) && OwnersInv(s.handles, s.log)
  }

  lemma LogGrows(log: seq<Event>, e: Event)
    requires Fenced(log)
    requires e.version >= 1 && e.version == Claims(log) + if e.Claimed? then 1 else 0
    ensures Fenced(log + [e])
    ensures Claims(log + [e]) == e.version
  {
    var longer := log + [e];
    assert longer[..|longer| - 1] == log;
    forall i | 0 <= i < |longer|
      ensures longer[i].version >= 1 && longer[i].version == Claims(longer[..i]) + if longer[i].Claimed? then 1 else 0
    {
      assert longer[..i] == log[..i];
      assert i == |log| ==> log[..i] == log;
    }
  }

  /** A conditional request, applied or refused. */
  lemma WriteKeepsInv(p: Partition, handles: map<nat, Handle>, log: seq<Event>, version: int, r: Request)
    requires RecordInv(p.shard, log) && OwnersInv(handles, log)
    ensures var (p', out) := Execute(p, version, r);
            var log' := Logged(log, version, r, out);
            && RecordInv(p'.shard, log') && OwnersInv(handles, log')
            && Claims(log') == Claims(log)
            && (out == Failed(ShardConditionFail) && p.shard.Some? ==> version != Claims(log))
  {
    ExecuteIsConditional(p, version, r);
    var out := Execute(p, version, r).1;
    if out.Done? {
      LogGrows(log, Wrote(version, r));
    }
  }

  lemma ClaimKeepsInv(s: State, c: nat, owner: string, now: int, s': State)
    requires Inv(s) && Next(s, CompareAndSet(c, owner, now), s')
    ensures Inv(s')
  {
    var (shard, result) := Claim(s.store.shard, s.seen[c], owner, now);
    if result.Claimed? {
      var e := Event.Claimed(c, result.current.version, result.current.metadata);
      LogGrows(s.log, e);
      assert forall i :: 0 <= i < |s'.log| ==> s'.log[i] == if i < |s.log| then s.log[i] else e;
    }
  }

  lemma OwnerUpdateKeepsInv(s: State, c: nat, m: Offset, s': State)
    requires Inv(s) && Next(s, OwnerUpdate(c, m), s')
    ensures Inv(s')
  {
    var h := s.handles[c];
    WriteKeepsInv(s.store, s.handles, s.log, h.version, UpdateMetadata(m));
    HandleMayChange(s.handles, s'.log, c, s'.handles[c]);
  }

  lemma HandleMayChange(handles: map<nat, Handle>, log: seq<Event>, c: nat, h: Handle)
    requires OwnersInv(handles, log) && c in handles && h.version == handles[c].version
    requires h.refused ==> h.version < Claims(log) && h.lossSignalled
    ensures OwnersInv(handles[c := h], log)
  {
  }

  lemma StepKeepsInv(s: State, step: Step, s': State)
    requires Inv(s) && Next(s, step, s')
    ensures Inv(s')
  {
    match step
    case CompareAndSet(c, owner, now) => ClaimKeepsInv(s, c, owner, now, s');
    case LockedWrite(version, r) => WriteKeepsInv(s.store, s.handles, s.log, version, r);
    case OwnerUpdate(c, m) => OwnerUpdateKeepsInv(s, c, m, s');
    case _ =>
  }

  lemma {:induction false} InvAt(run: seq<State>, steps: seq<Step>, i: nat)
    requires IsRun(run, steps) && i < |run|
    ensures Inv(run[i])
  {
    if i > 0 {
      InvAt(run, steps, i - 1);
      StepKeepsInv(run[i - 1], steps[i - 1], run[i]);
    }
  }

  lemma {:induction false} ClaimsSplit(log: seq<Event>, i: nat, j: nat)
    requires i <= j <= |log|
    ensures Claims(log[..i]) <= Claims(log[..j])
    ensures Claims(log[..i]) == Claims(log[..j]) <==> forall k :: i <= k < j ==> !log[k].Claimed?
  {
    if i < j {
      ClaimsSplit(log, i, j - 1);
      assert log[..j][..j - 1] == log[..j - 1];
    }
  }

  /** The claim a version belongs to. */
  lemma {:induction false} FindClaim(log: seq<Event>, end: nat, version: int) returns (p: nat)
    requires Fenced(log) && end <= |log|
    requires 1 <= version <= Claims(log[..end])
    ensures p < end && log[p].Claimed? && log[p].version == version
  {
    assert log[..end][..end - 1] == log[..end - 1];
    if log[end - 1].Claimed? && log[end - 1].version == version {
      p := end - 1;
    } else {
      p := FindClaim(log, end - 1, version);
    }
  }

  /** In every run, claims get versions 1, 2, 3, ... without gap, each version going to one claimer. */
  lemma ClaimsAreConsecutive(run: seq<State>, steps: seq<Step>, i: nat)
    requires IsRun(run, steps) && i < |run|
    ensures forall p :: 0 <= p < |run[i].log| && run[i].log[p].Claimed? ==>
              run[i].log[p].version == Claims(run[i].log[..p]) + 1
    ensures forall p, q :: 0 <= p < q < |run[i].log| && run[i].log[p].Claimed? && run[i].log[q].Claimed? ==>
              run[i].log[p].version < run[i].log[q].version && run[i].log[p].claimer != run[i].log[q].claimer
  {
    InvAt(run, steps, i);
    var log := run[i].log;
    forall p, q | 0 <= p < q < |log| && log[p].Claimed? && log[q].Claimed?
      ensures log[p].version < log[q].version
    {
      ClaimsSplit(log, p, q);
      assert log[..p + 1][..p] == log[..p];
      ClaimsSplit(log, p + 1, q);
    }
  }

  /** A version-checked write that took effect under v lies after claim v and before any later claim. */
  lemma WritesStayInTheirWindow(run: seq<State>, steps: seq<Step>, i: nat, w: nat) returns (p: nat)
    requires IsRun(run, steps) && i < |run|
    requires w < |run[i].log| && run[i].log[w].Wrote?
    ensures p < w && run[i].log[p].Claimed? && run[i].log[p].version == run[i].log[w].version
    ensures forall q :: p < q < w ==> !run[i].log[q].Claimed?
  {
    InvAt(run, steps, i);
    var log := run[i].log;
    p := FindClaim(log, w, log[w].version);
    assert log[..p + 1][..p] == log[..p];
    ClaimsSplit(log, p + 1, w);
  }

  /** An owner is refused only after another claim with a larger version took effect. */
  lemma LossIsNeverSpurious(run: seq<State>, steps: seq<Step>, i: nat, c: nat)
    requires IsRun(run, steps) && i < |run|
    requires c in run[i].handles && run[i].handles[c].refused
    ensures run[i].handles[c].lossSignalled
    ensures exists p :: 0 <= p < |run[i].log| && run[i].log[p].Claimed?
                        && run[i].log[p].claimer != c && run[i].log[p].version > run[i].handles[c].version
  {
    InvAt(run, steps, i);
    var log := run[i].log;
    assert log[..|log|] == log;
    var p := FindClaim(log, |log|, Claims(log));
  }

  /**
    Losing the shard never goes unnoticed: once a larger claim took effect, every update of the old owner is
    refused, changes nothing in the store, and signals the loss.
   */
  lemma LossIsNoticed(run: seq<State>, steps: seq<Step>, i: nat, c: nat, k: nat)
    requires IsRun(run, steps) && i < |steps|
    requires steps[i].OwnerUpdate? && steps[i].claimer == c && c in run[i].handles
    requires k < |run[i].log| && run[i].log[k].Claimed? && run[i].log[k].version > run[i].handles[c].version
    ensures run[i + 1].store == run[i].store && run[i + 1].log == run[i].log
    ensures c in run[i + 1].handles && run[i + 1].handles[c].lossSignalled
    ensures run[i + 1].handles[c].metadata == run[i].handles[c].metadata
  {
    InvAt(run, steps, i);
    var log := run[i].log;
    assert log[..k + 1][..k] == log[..k] && log[..|log|] == log;
    ClaimsSplit(log, k + 1, |log|);
    assert Next(run[i], steps[i], run[i + 1]);
  }

  /** A claim lets its owner write: until the next claim, its updates take effect. */
  lemma OwnerWrites(run: seq<State>, steps: seq<Step>, i: nat, c: nat)
    requires IsRun(run, steps) && i < |steps|
    requires steps[i].OwnerUpdate? && steps[i].claimer == c && c in run[i].handles
    requires forall k :: 0 <= k < |run[i].log| && run[i].log[k].Claimed? ==> run[i].log[k].version <= run[i].handles[c].version
    ensures run[i + 1].store.shard.Some? && run[i + 1].store.shard.value.metadata == steps[i].metadata
    ensures c in run[i + 1].handles && run[i + 1].handles[c].metadata == steps[i].metadata
    ensures run[i + 1].handles[c].lossSignalled == run[i].handles[c].lossSignalled
    ensures run[i + 1].log == run[i].log + [Wrote(run[i].handles[c].version, UpdateMetadata(steps[i].metadata))]
  {
    InvAt(run, steps, i);
    var log := run[i].log;
    assert log[..|log|] == log;
    var p := FindClaim(log, |log|, Claims(log));
    assert Next(run[i], steps[i], run[i + 1]);
  }

  lemma {:induction false} HandleStays(run: seq<State>, steps: seq<Step>, i: nat, j: nat, c: nat)
    requires IsRun(run, steps) && i <= j < |run|
    requires c in run[i].handles
    ensures c in run[j].handles && run[j].handles[c].version == run[i].handles[c].version
    ensures run[i].handles[c].refused ==> run[j].handles[c].refused
  {
    if i < j {
      HandleStays(run, steps, i, j - 1, c);
    }
  }

  /** Once refused, every later update of that owner is refused too and leaves store and cache alone. */
  lemma LossIsFinal(run: seq<State>, steps: seq<Step>, i: nat, j: nat, c: nat)
    requires IsRun(run, steps) && i <= j < |steps|
    requires c in run[i].handles && run[i].handles[c].refused
    requires steps[j].OwnerUpdate? && steps[j].claimer == c
    ensures c in run[j].handles && c in run[j + 1].handles
    ensures run[j + 1].store == run[j].store && run[j + 1].log == run[j].log
    ensures run[j + 1].handles[c] == run[j].handles[c]
  {
    HandleStays(run, steps, i, j, c);
    InvAt(run, steps, j);
    assert Next(run[j], steps[j], run[j + 1]);
  }

  // ---------- metadata ----------

  /** The offset committed last, or the default one of a record nobody committed to. */
  function LastMetadata(log: seq<Event>): Offset {
    if log == [] then DEFAULT_METADATA
    else
      var e := log[|log| - 1];
      if e.Wrote? && e.request.UpdateMetadata? then e.request.metadata else LastMetadata(log[..|log| - 1])
  }

  /** At this point of the log the record had this version and metadata. */
  ghost predicate StoodAt(log: seq<Event>, p: nat, version: int, metadata: Offset) {
    p <= |log| && Claims(log[..p]) == version && LastMetadata(log[..p]) == metadata
  }

  ghost predicate Stood(log: seq<Event>, version: int, metadata: Offset) {
    exists p: nat :: StoodAt(log, p, version, metadata)
  }

  ghost predicate SeenStood(seen: map<nat, Option<ShardRow>>, log: seq<Event>) {
    forall c :: c in seen && seen[c].Some? ==> Stood(log, seen[c].value.version, seen[c].value.metadata)
  }

  ghost predicate ClaimsReadTheRecord(log: seq<Event>) {
    forall i :: 0 <= i < |log| && log[i].Claimed? ==> Stood(log[..i], log[i].version - 1, log[i].metadata)
  }

  function CurrentMetadata(shard: Option<ShardRow>): Offset {
    if shard.Some? then shard.value.metadata else DEFAULT_METADATA
  }

  ghost predicate MetadataInv(s: State) {
    && RecordInv(s.store.shard, s.log)
    && CurrentMetadata(s.store.shard) == LastMetadata(s.log)
    && SeenStood(s.seen, s.log)
    && ClaimsReadTheRecord(s.log)
  }

  lemma StoodStays(log: seq<Event>, e: Event, version: int, metadata: Offset)
    requires Stood(log, version, metadata)
    ensures Stood(log + [e], version, metadata)
  {
    var p: nat :| StoodAt(log, p, version, metadata);
    assert (log + [e])[..p] == log[..p];
    assert StoodAt(log + [e], p, version, metadata);
  }

  lemma StandsNow(log: seq<Event>)
    ensures Stood(log, Claims(log), LastMetadata(log))
  {
    assert log[..|log|] == log;
    assert StoodAt(log, |log|, Claims(log), LastMetadata(log));
  }

  lemma EventKeepsHistory(log: seq<Event>, e: Event)
    requires ClaimsReadTheRecord(log)
    requires e.Claimed? ==> Stood(log, e.version - 1, e.metadata)
    ensures ClaimsReadTheRecord(log + [e])
    ensures LastMetadata(log + [e]) == if e.Wrote? && e.request.UpdateMetadata? then e.request.metadata else LastMetadata(log)
  {
    var longer := log + [e];
    assert longer[..|longer| - 1] == log;
    forall i | 0 <= i < |longer| && longer[i].Claimed?
      ensures Stood(longer[..i], longer[i].version - 1, longer[i].metadata)
    {
      assert longer[..i] == log[..i];
      assert i == |log| ==> log[..i] == log;
    }
  }

  lemma SeenStays(seen: map<nat, Option<ShardRow>>, log: seq<Event>, e: Event)
    requires SeenStood(seen, log)
    ensures SeenStood(seen, log + [e])
  {
    forall d | d in seen && seen[d].Some?
      ensures Stood(log + [e], seen[d].value.version, seen[d].value.metadata)
    {
      StoodStays(log, e, seen[d].value.version, seen[d].value.metadata);
    }
  }

  lemma WriteKeepsMetadataInv(s: State, version: int, r: Request, s': State)
    requires MetadataInv(s)
    requires var (store, out) := Execute(s.store, version, r);
             s' == s.(store := store, log := Logged(s.log, version, r, out), handles := s'.handles)
    ensures MetadataInv(s')
  {
    ExecuteIsConditional(s.store, version, r);
    if Execute(s.store, version, r).1.Done? {
      var e := Wrote(version, r);
      LogGrows(s.log, e);
      EventKeepsHistory(s.log, e);
      SeenStays(s.seen, s.log, e);
    }
  }

  lemma ClaimKeepsHistory(stored: Option<ShardRow>, read: Option<ShardRow>, owner: string, now: int, log: seq<Event>, e: Event)
    requires RecordInv(stored, log) && ClaimsReadTheRecord(log) && CurrentMetadata(stored) == LastMetadata(log)
    requires read.Some? ==> Stood(log, read.value.version, read.value.metadata)
    requires var result := Claim(stored, read, owner, now).1;
             && result.Claimed? && e.Claimed?
             && e.version == result.current.version && e.metadata == result.current.metadata
    ensures var shard := Claim(stored, read, owner, now).0;
            && RecordInv(shard, log + [e]) && ClaimsReadTheRecord(log + [e])
            && CurrentMetadata(shard) == LastMetadata(log + [e])
  {
    LogGrows(log, e);
    StandsNow(log);
    EventKeepsHistory(log, e);
  }

  lemma ClaimKeepsMetadataInv(s: State, c: nat, owner: string, now: int, s': State)
    requires MetadataInv(s) && Next(s, CompareAndSet(c, owner, now), s')
    ensures MetadataInv(s')
  {
    var result := Claim(s.store.shard, s.seen[c], owner, now).1;
    if result.Claimed? {
      var e := Event.Claimed(c, result.current.version, result.current.metadata);
      ClaimKeepsHistory(s.store.shard, s.seen[c], owner, now, s.log, e);
      SeenStays(s.seen, s.log, e);
    }
  }

  lemma {:induction false} MetadataInvAt(run: seq<State>, steps: seq<Step>, i: nat)
    requires IsRun(run, steps) && i < |run|
    ensures MetadataInv(run[i])
  {
    if i > 0 {
      MetadataInvAt(run, steps, i - 1);
      var s := run[i - 1];
      match steps[i - 1]
      case Read(c) => StandsNow(s.log);
      case CompareAndSet(c, owner, now) => ClaimKeepsMetadataInv(s, c, owner, now, run[i]);
      case LockedWrite(version, r) => WriteKeepsMetadataInv(s, version, r, run[i]);
      case OwnerUpdate(c, m) => WriteKeepsMetadataInv(s, s.handles[c].version, UpdateMetadata(m), run[i]);
      case _ =>
    }
  }

  /**
    A claim never disturbs the committed offset, and however late its compare-and-set comes, the metadata it
    returns is what was stored at some moment after the claim before it and before itself.
   */
  lemma ClaimsReturnRecentMetadata(run: seq<State>, steps: seq<Step>, i: nat)
    requires IsRun(run, steps) && i < |run|
    ensures run[i].store.shard.Some? ==> run[i].store.shard.value.metadata == LastMetadata(run[i].log)
    ensures forall k :: 0 <= k < |run[i].log| && run[i].log[k].Claimed? ==>
              exists p :: 0 <= p <= k && LastMetadata(run[i].log[..p]) == run[i].log[k].metadata
                          && forall q :: p <= q < k ==> !run[i].log[q].Claimed?
  {
    MetadataInvAt(run, steps, i);
    var log := run[i].log;
    forall k | 0 <= k < |log| && log[k].Claimed?
      ensures exists p :: 0 <= p <= k && LastMetadata(log[..p]) == log[k].metadata
                          && forall q :: p <= q < k ==> !log[q].Claimed?
    {
      var p: nat :| StoodAt(log[..k], p, log[k].version - 1, log[k].metadata);
      assert log[..k][..p] == log[..p];
      ClaimsSplit(log, p, k);
    }
  }
}
