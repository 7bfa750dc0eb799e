/**
  The timer pipeline of one shard, run by any number of instances, each with its own clock. Instances claim the
  shard by a read and a later compare-and-set, page through the table, hand rows to the queue, commit and
  range-delete up to announced offsets. An owner that lost the shard keeps going. Commits and deletes, once
  sent, may take effect at any later time, more than once, or never. Inserts take effect some time after their
  execute_at was chosen.
 */
module Pipeline {
  import opened TimerModel
  import opened SortedTable
  import opened BatchReader
  import C = CassandraStore

  /**
    minTimer: the shortest timer duration an insert may ask for. maxSkew: how far two clocks may differ.
    maxLatency: how long after its execute_at was chosen an insert may still take effect.
   */
  datatype Config = Config(minTimer: nat, maxSkew: nat, maxLatency: nat, reader: ReaderConfig)

  /** An insert, or an update moving a row from its old position, decided on a node's clock. */
  datatype Insert = Insert(node: nat, decidedAt: int, key: Offset, moved: Option<Offset>)

  /**
    One claim's reader, queue and deleter. reading: the clock value of a read under way. handed, done: rows
    the queue was given, and those of them it saw completed. announced: offsets sent to the deleter.
   */
  datatype Owner = Owner(
    node: nat, version: int, reading: Option<int>, cursor: Offset, buffer: seq<Offset>,
    handed: set<Offset>, done: set<Offset>, announced: set<Offset>, received: Option<Offset>)

  datatype Commit = Commit(version: int, offset: Offset)

  datatype State = State(
    clocks: map<nat, int>, shard: Option<ShardRow>, rows: set<Offset>, completed: set<Offset>,
    inserts: set<Insert>, claims: map<nat, Option<ShardRow>>, owners: map<nat, Owner>,
    commits: set<Commit>, deletes: set<Offset>)

  datatype Step =
    | Tick(clocks: map<nat, int>)
    | Decide(insert: Insert) | LandInsert(insert: Insert) | UserDelete(row: Offset)
    | ReadShard(claimer: nat) | ClaimShard(claimer: nat, node: nat, address: string)
    | StartRead(owner: nat) | FinishRead(owner: nat) | FailRead(owner: nat) | HandOver(owner: nat)
    | Complete(owner: nat, row: Offset) | Announce(owner: nat, row: Offset) | Receive(owner: nat, row: Offset)
    | SendCommit(owner: nat) | LandCommit(commit: Commit)
    | SendDelete(owner: nat) | LandDelete(upTo: Offset, removed: set<Offset>)

  ghost predicate WithinSkew(cfg: Config, clocks: map<nat, int>) {
    forall m, n :: m in clocks && n in clocks ==> clocks[m] <= clocks[n] + cfg.maxSkew
  }

  ghost predicate Init(cfg: Config, s: State) {
    && s.clocks != map[] && WithinSkew(cfg, s.clocks)
    && (forall n :: n in s.clocks ==> GO_ZERO_TIME < s.clocks[n])
    && s == State(s.clocks, None, {}, {}, {}, map[], map[], {}, {})
  }

  function NewOwner(node: nat, row: ShardRow): Owner {
    Owner(node, row.version, None, row.metadata, [], {}, {}, {}, None)
  }

  function WithOwner(s: State, c: nat, w: Owner): State {
    s.(owners := s.owners[c := w])
  }

  /** A fenced metadata update reaching the store. */
  function Committed(shard: Option<ShardRow>, m: Commit): Option<ShardRow> {
    C.Execute(C.Partition(shard, map[]), m.version, C.UpdateMetadata(m.offset)).0.shard
  }

  ghost predicate Next(cfg: Config, s: State, step: Step, s': State) {
    match step
    case Tick(clocks) =>
      && clocks.Keys == s.clocks.Keys && WithinSkew(cfg, clocks)
      && (forall n :: n in clocks ==> s.clocks[n] <= clocks[n])
      && s' == s.(clocks := clocks)
    case Decide(i) =>
      && i.node in s.clocks && i.decidedAt == s.clocks[i.node]
      && i.key.time >= i.decidedAt + cfg.minTimer
      && s' == s.(inserts := s.inserts + {i})
    case LandInsert(i) =>
      && i in s.inserts && i.node in s.clocks && s.clocks[i.node] - i.decidedAt <= cfg.maxLatency
      && s' == s.(rows := s.rows - (if i.moved.Some? then {i.moved.value} else {}) + {i.key})
    case UserDelete(r) => s' == s.(rows := s.rows - {r})
    case ReadShard(c) => c !in s.owners && s' == s.(claims := s.claims[c := s.shard])
    case ClaimShard(c, node, address) =>
      && c in s.claims && c !in s.owners && node in s.clocks
      && var (shard, result) := C.Claim(s.shard, s.claims[c], address, s.clocks[node]);
         s' == if result.Claimed? then WithOwner(s.(shard := shard), c, NewOwner(node, result.current)) else s
    case StartRead(c) =>
      && c in s.owners && s.owners[c].reading.None? && s.owners[c].buffer == [] && s.owners[c].node in s.clocks
      && s' == WithOwner(s, c, s.owners[c].(reading := Some(s.clocks[s.owners[c].node])))
    case FinishRead(c) =>
      && c in s.owners && s.owners[c].reading.Some?
      && var w := s.owners[c];
         s' == WithOwner(s, c, w.(reading := None,
                                  buffer := ReadyRows(cfg.reader, s.rows, w.cursor, w.reading.value),
                                  cursor := AfterRead(cfg.reader, s.rows, w.cursor, w.reading.value)))
    case FailRead(c) =>
      c in s.owners && s.owners[c].reading.Some? && s' == WithOwner(s, c, s.owners[c].(reading := None))
    case HandOver(c) =>
      && c in s.owners && s.owners[c].buffer != []
      && var w := s.owners[c];
         s' == WithOwner(s, c, w.(handed := w.handed + {w.buffer[0]}, buffer := w.buffer[1..]))
    case Complete(c, r) =>
      && c in s.owners && r in s.owners[c].handed
      && s' == WithOwner(s.(completed := s.completed + {r}), c, s.owners[c].(done := s.owners[c].done + {r}))
    case Announce(c, r) =>
      && c in s.owners && r in s.owners[c].handed
      && (forall h :: h in s.owners[c].handed && Leq(h, r) ==> h in s.owners[c].done)
      && s' == WithOwner(s, c, s.owners[c].(announced := s.owners[c].announced + {r}))
    case Receive(c, r) =>
      && c in s.owners && r in s.owners[c].announced
      && s' == WithOwner(s, c, s.owners[c].(received := Some(r)))
    case SendCommit(c) =>
      && c in s.owners && s.owners[c].received.Some?
      && s' == s.(commits := s.commits + {Commit(s.owners[c].version, s.owners[c].received.value)})
    case LandCommit(m) =>
      m in s.commits && s' == s.(shard := Committed(s.shard, m))
    case SendDelete(c) =>
      && c in s.owners && s.owners[c].received.Some?
      && s' == s.(deletes := s.deletes + {s.owners[c].received.value})
    case LandDelete(upTo, removed) =>
      && upTo in s.deletes && removed <= InRange(s.rows, TABLE_START, upTo)
      && s' == s.(rows := s.rows - removed)
  }

  ghost predicate IsRun(cfg: Config, run: seq<State>, steps: seq<Step>) {
    && |run| == |steps| + 1
    && Init(cfg, run[0])
    && forall i :: 0 <= i < |steps| ==> Next(cfg, run[i], steps[i], run[i + 1])
  }

  // ---------- what is safe ----------

  /** Some clock has passed this position, so no insert will land at or before it. */
  ghost predicate Passed(s: State, o: Offset) {
    exists n :: n in s.clocks && o.time <= s.clocks[n]
  }

  /** Every row left at or before the offset is completed, and none will be added. */
  ghost predicate Safe(s: State, o: Offset) {
    Passed(s, o) && forall r :: r in s.rows && Leq(r, o) ==> r in s.completed
  }

  /** A reader has skipped nothing: what lies behind its cursor is completed, in the queue, or on its way there. */
  ghost predicate SkipsNothing(s: State, w: Owner) {
    forall r :: r in s.rows && Leq(r, w.cursor) ==> r in s.completed || r in w.handed || r in w.buffer
  }

  ghost predicate OwnerInv(s: State, w: Owner) {
    && w.node in s.clocks
    && Passed(s, w.cursor)
    && (w.reading.Some? ==> w.reading.value <= s.clocks[w.node] && w.buffer == [])
    && SkipsNothing(s, w)
    && StrictlySorted(w.buffer)
    && (forall b :: b in w.buffer ==> Leq(b, w.cursor))
    && (forall h :: h in w.handed ==> Leq(h, w.cursor))
    && (forall h, b :: h in w.handed && b in w.buffer ==> Leq(h, b))
    && w.done <= w.handed * s.completed
    && (forall a :: a in w.announced ==> Safe(s, a))
    && (w.received.Some? ==> Safe(s, w.received.value))
  }

  ghost predicate StoredSafe(s: State, row: Option<ShardRow>) {
    row.Some? ==> Safe(s, row.value.metadata)
  }

  /** Every offset in the system is safe: stored, seen by an unfinished claim, or on the wire. */
  ghost predicate OffsetsSafe(s: State) {
    && StoredSafe(s, s.shard)
    && (forall c :: c in s.claims ==> StoredSafe(s, s.claims[c]))
    && (forall m :: m in s.commits ==> Safe(s, m.offset))
    && (forall o :: o in s.deletes ==> Safe(s, o))
  }

  ghost predicate Inv(cfg: Config, s: State) {
    && WithinSkew(cfg, s.clocks)
    && Safe(s, DEFAULT_METADATA)
    && (forall i :: i in s.inserts ==> i.key.time >= i.decidedAt + cfg.minTimer)
    && OffsetsSafe(s)
    && forall c :: c in s.owners ==> OwnerInv(s, s.owners[c])
  }

  // ---------- the invariant ----------

  /** Time passes, completions accumulate, and rows are only added where no clock has been yet. */
  ghost predicate Evolves(s: State, s': State) {
    && s.clocks.Keys == s'.clocks.Keys
    && (forall n :: n in s.clocks ==> s.clocks[n] <= s'.clocks[n])
    && s.completed <= s'.completed
    && forall r, n :: r in s'.rows && r !in s.rows && n in s.clocks ==> s.clocks[n] < r.time
  }

  lemma StaysSafe(s: State, s': State, o: Offset)
    requires Evolves(s, s') && Safe(s, o)
    ensures Safe(s', o)
  {
    var n :| n in s.clocks && o.time <= s.clocks[n];
    assert n in s'.clocks && o.time <= s'.clocks[n];
  }

  lemma OwnerStays(s: State, s': State, w: Owner)
    requires Evolves(s, s') && OwnerInv(s, w)
    ensures OwnerInv(s', w)
  {
    var n :| n in s.clocks && w.cursor.time <= s.clocks[n];
    assert n in s'.clocks && w.cursor.time <= s'.clocks[n];
    forall o | Safe(s, o) ensures Safe(s', o) {
      StaysSafe(s, s', o);
    }
  }

  lemma OffsetsStay(s: State, s': State)
    requires Evolves(s, s') && OffsetsSafe(s)
    requires s'.shard == s.shard && s'.claims == s.claims && s'.commits == s.commits && s'.deletes == s.deletes
    ensures OffsetsSafe(s')
  {
    forall o | Safe(s, o) ensures Safe(s', o) {
      StaysSafe(s, s', o);
    }
  }

  /** The world moves on while every owner and every message stays as it is. */
  lemma WorldMoves(cfg: Config, s: State, s': State)
    requires Inv(cfg, s) && Evolves(s, s') && WithinSkew(cfg, s'.clocks)
    requires s' == s.(clocks := s'.clocks, rows := s'.rows, completed := s'.completed)
    ensures Inv(cfg, s')
  {
    StaysSafe(s, s', DEFAULT_METADATA);
    OffsetsStay(s, s');
    forall c | c in s'.owners ensures OwnerInv(s', s'.owners[c]) {
      OwnerStays(s, s', s.owners[c]);
    }
  }

  /** One owner changes, and nothing else does. */
  lemma OwnerMoves(cfg: Config, s: State, s': State, c: nat, w: Owner)
    requires Inv(cfg, s) && OwnerInv(s, w)
    requires s' == WithOwner(s, c, w)
    ensures Inv(cfg, s')
  {
    assert Evolves(s, s');
    StaysSafe(s, s', DEFAULT_METADATA);
    OffsetsStay(s, s');
    OwnerStays(s, s', w);
    forall d | d in s'.owners ensures OwnerInv(s', s'.owners[d]) {
      if d != c {
        OwnerStays(s, s', s.owners[d]);
      }
    }
  }

  /** Safety reads nothing but clocks, rows and completions. */
  lemma MessagesMove(cfg: Config, s: State, s': State)
    requires Inv(cfg, s)
    requires s' == s.(shard := s'.shard, claims := s'.claims, commits := s'.commits, deletes := s'.deletes)
    requires StoredSafe(s, s'.shard)
    requires forall c :: c in s'.claims ==> StoredSafe(s, s'.claims[c])
    requires forall m :: m in s'.commits ==> Safe(s, m.offset)
    requires forall o :: o in s'.deletes ==> Safe(s, o)
    ensures Inv(cfg, s')
  {
    forall o | Safe(s, o) ensures Safe(s', o) {
      StaysSafe(s, s', o);
    }
    forall c | c in s'.owners ensures OwnerInv(s', s'.owners[c]) {
      OwnerStays(s, s', s.owners[c]);
    }
  }

  /** The point of the minimum duration: an insert lands beyond every clock. */
  lemma InsertLandsAhead(cfg: Config, s: State, i: Insert, n: nat)
    requires Inv(cfg, s) && cfg.maxSkew + cfg.maxLatency < cfg.minTimer
    requires i in s.inserts && i.node in s.clocks && s.clocks[i.node] - i.decidedAt <= cfg.maxLatency
    requires n in s.clocks
    ensures s.clocks[n] < i.key.time
  {
    assert s.clocks[n] <= s.clocks[i.node] + cfg.maxSkew;
  }

  lemma ReadKeepsOwnerInv(cfg: Config, s: State, w: Owner)
    requires OwnerInv(s, w) && w.reading.Some?
    ensures OwnerInv(s, w.(reading := None,
                           buffer := ReadyRows(cfg.reader, s.rows, w.cursor, w.reading.value),
                           cursor := AfterRead(cfg.reader, s.rows, w.cursor, w.reading.value)))
  {
    var now := w.reading.value;
    ReadIsGapless(cfg.reader, s.rows, w.cursor, now);
    BufferKeepsOwnerInv(s, w, ReadyRows(cfg.reader, s.rows, w.cursor, now), AfterRead(cfg.reader, s.rows, w.cursor, now));
  }

  lemma BufferKeepsOwnerInv(s: State, w: Owner, ready: seq<Offset>, cursor: Offset)
    requires OwnerInv(s, w) && w.reading.Some?
    requires StrictlySorted(ready) && Leq(w.cursor, cursor)
    requires forall r :: r in ready ==> r.time <= w.reading.value && Leq(w.cursor, r) && Leq(r, cursor)
    requires ready != [] ==> cursor in ready
    requires ready != [] ==> forall r :: r in s.rows && Leq(w.cursor, r) && Leq(r, cursor) ==> r in ready
    requires ready == [] ==> cursor == w.cursor
    ensures OwnerInv(s, w.(reading := None, buffer := ready, cursor := cursor))
  {
    if ready != [] {
      assert w.node in s.clocks && cursor.time <= s.clocks[w.node];
    }
  }

  lemma HandOverKeepsOwnerInv(s: State, w: Owner)
    requires OwnerInv(s, w) && w.buffer != []
    ensures OwnerInv(s, w.(handed := w.handed + {w.buffer[0]}, buffer := w.buffer[1..]))
  {
    assert w.buffer[0] in w.buffer;
    assert forall b :: b in w.buffer <==> b == w.buffer[0] || b in w.buffer[1..];
    forall b | b in w.buffer[1..] ensures Leq(w.buffer[0], b) {
      var j :| 0 <= j < |w.buffer[1..]| && w.buffer[1..][j] == b;
      assert w.buffer[j + 1] == b;
    }
  }

  /** The queue's contract makes an announced offset safe: rows it never saw are completed already. */
  lemma AnnouncedIsSafe(s: State, w: Owner, r: Offset)
    requires OwnerInv(s, w) && r in w.handed
    requires forall h :: h in w.handed && Leq(h, r) ==> h in w.done
    ensures Safe(s, r)
  {
    var n :| n in s.clocks && w.cursor.time <= s.clocks[n];
    assert n in s.clocks && r.time <= s.clocks[n];
    forall q | q in s.rows && Leq(q, r) ensures q in s.completed {
      assert Leq(q, w.cursor);
      if q in w.buffer {
        assert Leq(r, q);
      }
    }
  }

  lemma StartKeepsOwnerInv(s: State, w: Owner)
    requires OwnerInv(s, w)
    ensures OwnerInv(s, w.(reading := None))
    ensures w.buffer == [] ==> OwnerInv(s, w.(reading := Some(s.clocks[w.node])))
  {
  }

  lemma ReaderStepKeepsInv(cfg: Config, s: State, step: Step, s': State)
    requires Inv(cfg, s) && Next(cfg, s, step, s')
    requires step.StartRead? || step.FinishRead? || step.FailRead? || step.HandOver?
    ensures Inv(cfg, s')
  {
    var w := s.owners[step.owner];
    match step {
      case FinishRead(_) => ReadKeepsOwnerInv(cfg, s, w);
      case HandOver(_) => HandOverKeepsOwnerInv(s, w);
      case _ => StartKeepsOwnerInv(s, w);
    }
    OwnerMoves(cfg, s, s', step.owner, s'.owners[step.owner]);
  }

  lemma CompleteKeepsInv(cfg: Config, s: State, c: nat, r: Offset, s': State)
    requires Inv(cfg, s) && Next(cfg, s, Complete(c, r), s')
    ensures Inv(cfg, s')
  {
    var world := s.(completed := s.completed + {r});
    WorldMoves(cfg, s, world);
    OwnerMoves(cfg, world, s', c, s'.owners[c]);
  }

  lemma DeleterStepKeepsInv(cfg: Config, s: State, step: Step, s': State)
    requires Inv(cfg, s) && Next(cfg, s, step, s')
    requires step.Announce? || step.Receive?
    ensures Inv(cfg, s')
  {
    var w, w' := s.owners[step.owner], s'.owners[step.owner];
    if step.Announce? {
      AnnouncedIsSafe(s, w, step.row);
    }
    assert OwnerInv(s, w');
    OwnerMoves(cfg, s, s', step.owner, w');
  }

  lemma ClaimKeepsInv(cfg: Config, s: State, c: nat, node: nat, address: string, s': State)
    requires Inv(cfg, s) && Next(cfg, s, ClaimShard(c, node, address), s')
    ensures Inv(cfg, s')
  {
    var (shard, result) := C.Claim(s.shard, s.claims[c], address, s.clocks[node]);
    if result.Claimed? {
      var w := NewOwner(node, result.current);
      assert StoredSafe(s, s.claims[c]);
      assert Safe(s, w.cursor);
      assert OwnerInv(s, w);
      var mid := s.(shard := shard);
      MessagesMove(cfg, s, mid);
      OwnerStays(s, mid, w);
      OwnerMoves(cfg, mid, s', c, w);
    }
  }

  lemma DecideKeepsInv(cfg: Config, s: State, i: Insert, s': State)
    requires Inv(cfg, s) && Next(cfg, s, Decide(i), s')
    ensures Inv(cfg, s')
  {
    assert Evolves(s, s');
    OffsetsStay(s, s');
    StaysSafe(s, s', DEFAULT_METADATA);
    forall c | c in s'.owners ensures OwnerInv(s', s'.owners[c]) {
      OwnerStays(s, s', s.owners[c]);
    }
  }

  lemma LandInsertKeepsInv(cfg: Config, s: State, i: Insert, s': State)
    requires cfg.maxSkew + cfg.maxLatency < cfg.minTimer
    requires Inv(cfg, s) && Next(cfg, s, LandInsert(i), s')
    ensures Inv(cfg, s')
  {
    forall n | n in s.clocks ensures s.clocks[n] < i.key.time {
      InsertLandsAhead(cfg, s, i, n);
    }
    WorldMoves(cfg, s, s');
  }

  lemma MessageStepKeepsInv(cfg: Config, s: State, step: Step, s': State)
    requires Inv(cfg, s) && Next(cfg, s, step, s')
    requires step.ReadShard? || step.SendCommit? || step.LandCommit? || step.SendDelete?
    ensures Inv(cfg, s')
  {
    if step.SendCommit? || step.SendDelete? {
      assert OwnerInv(s, s.owners[step.owner]);
    }
    MessagesMove(cfg, s, s');
  }

  lemma RowStepKeepsInv(cfg: Config, s: State, step: Step, s': State)
    requires cfg.maxSkew + cfg.maxLatency < cfg.minTimer
    requires Inv(cfg, s) && Next(cfg, s, step, s')
    requires step.Tick? || step.Decide? || step.LandInsert? || step.UserDelete? || step.LandDelete?
    ensures Inv(cfg, s')
  {
    match step
    case Decide(i) => DecideKeepsInv(cfg, s, i, s');
    case LandInsert(i) => LandInsertKeepsInv(cfg, s, i, s');
    case _ => WorldMoves(cfg, s, s');
  }

  lemma StepKeepsInv(cfg: Config, s: State, step: Step, s': State)
    requires cfg.maxSkew + cfg.maxLatency < cfg.minTimer
    requires Inv(cfg, s) && Next(cfg, s, step, s')
    ensures Inv(cfg, s')
  {
    if step.Tick? || step.Decide? || step.LandInsert? || step.UserDelete? || step.LandDelete? {
      RowStepKeepsInv(cfg, s, step, s');
    } else if step.StartRead? || step.FinishRead? || step.FailRead? || step.HandOver? {
      ReaderStepKeepsInv(cfg, s, step, s');
    } else if step.Announce? || step.Receive? {
      DeleterStepKeepsInv(cfg, s, step, s');
    } else if step.ClaimShard? {
      ClaimKeepsInv(cfg, s, step.claimer, step.node, step.address, s');
    } else if step.Complete? {
      CompleteKeepsInv(cfg, s, step.owner, step.row, s');
    } else {
      MessageStepKeepsInv(cfg, s, step, s');
    }
  }

  lemma {:induction false} InvAt(cfg: Config, run: seq<State>, steps: seq<Step>, i: nat)
    requires cfg.maxSkew + cfg.maxLatency < cfg.minTimer
    requires IsRun(cfg, run, steps) && i < |run|
    ensures Inv(cfg, run[i])
  {
    if i == 0 {
      var n :| n in run[0].clocks;
      assert DEFAULT_METADATA.time <= run[0].clocks[n];
    } else {
      InvAt(cfg, run, steps, i - 1);
      StepKeepsInv(cfg, run[i - 1], steps[i - 1], run[i]);
    }
  }

  // ---------- results ----------

  /** No range delete, by whatever owner, removes a row that is not completed. */
  ghost predicate DeletesOnlyCompleted(run: seq<State>, steps: seq<Step>) {
    forall i :: 0 <= i < |steps| < |run| && steps[i].LandDelete? ==> run[i].rows - run[i + 1].rows <= run[i].completed
  }

  /** No reader, current or stale, ever skips a live row. */
  ghost predicate ReadersSkipNothing(run: seq<State>) {
    forall i, c :: 0 <= i < |run| && c in run[i].owners ==> SkipsNothing(run[i], run[i].owners[c])
  }

  /** Handover: every offset stored, read by a claim still to compare, or on the wire only has completed rows behind it. */
  ghost predicate OffsetsStaySafe(run: seq<State>) {
    forall i :: 0 <= i < |run| ==> OffsetsSafe(run[i])
  }

  lemma RangeDeletesAreSafe(cfg: Config, run: seq<State>, steps: seq<Step>)
    requires cfg.maxSkew + cfg.maxLatency < cfg.minTimer
    requires IsRun(cfg, run, steps)
    ensures DeletesOnlyCompleted(run, steps)
  {
    forall i | 0 <= i < |steps| && steps[i].LandDelete?
      ensures run[i].rows - run[i + 1].rows <= run[i].completed
    {
      InvAt(cfg, run, steps, i);
      assert Next(cfg, run[i], steps[i], run[i + 1]);
      assert Safe(run[i], steps[i].upTo);
    }
  }

  lemma HandoverIsSafe(cfg: Config, run: seq<State>, steps: seq<Step>)
    requires cfg.maxSkew + cfg.maxLatency < cfg.minTimer
    requires IsRun(cfg, run, steps)
    ensures ReadersSkipNothing(run) && OffsetsStaySafe(run)
  {
    forall i | 0 <= i < |run| ensures Inv(cfg, run[i]) {
      InvAt(cfg, run, steps, i);
    }
  }

  /** A new owner starts reading where no live row lies behind, however stale the metadata its claim read. */
  lemma NewOwnerStartsSafe(cfg: Config, run: seq<State>, steps: seq<Step>, i: nat)
    requires cfg.maxSkew + cfg.maxLatency < cfg.minTimer
    requires IsRun(cfg, run, steps) && i < |steps| && steps[i].ClaimShard?
    requires steps[i].claimer in run[i + 1].owners
    ensures Safe(run[i + 1], run[i + 1].owners[steps[i].claimer].cursor)
  {
    InvAt(cfg, run, steps, i);
    var s, s', c := run[i], run[i + 1], steps[i].claimer;
    assert Next(cfg, s, steps[i], s');
    assert StoredSafe(s, s.claims[c]);
    assert Evolves(s, s');
    StaysSafe(s, s', s'.owners[c].cursor);
  }
}
