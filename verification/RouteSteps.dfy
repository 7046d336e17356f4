/** Readers and writers of one routing table in any interleaving (`routing/src/lib.rs`). Each
    locked section, each epoch load or bump and each cache access is one step, on sequentially
    consistent memory; the epoch is unbounded (fewer than 2^64 updates). A shard read and the
    cache fill after it are separate steps, which allows more interleavings than the source. */
module RouteSteps {
  import opened Bits
  import opened Wire
  import opened OrderedMap
  import opened Selection
  import opened RouteTable

  /** What a reader asks: `lookup_next_hop` or `lookup_spray_primary`. */
  datatype Query = HopQuery(dest: Id) | SprayQuery(dest: Id, flow: u32)

  function Answer(shards: Shards, q: Query): Option<Id> {
    match q
    case HopQuery(d) => NextHop(shards, d)
    case SprayQuery(d, f) => SprayPrimary(shards, d, f)
  }

  function CacheIndex(q: Query): (i: nat)
    ensures i < HOT_CACHE_SIZE
  {
    match q
    case HopQuery(d) => SimpleCacheIndex(d)
    case SprayQuery(d, f) => SprayCacheIndex(d, f)
  }

  /** A cache slot. `asOf` records how many writes the answer had seen; no step reads it. */
  datatype Slot = Slot(epoch: nat, dest: Id, flow: u32, hop: Id, asOf: nat)

  /** The two caches of a thread. */
  datatype Caches = Caches(hops: seq<Slot>, sprays: seq<Slot>) {
    predicate Valid() { |hops| == HOT_CACHE_SIZE && |sprays| == HOT_CACHE_SIZE }

    function SlotFor(q: Query): Slot
      requires Valid()
    {
      if q.HopQuery? then hops[CacheIndex(q)] else sprays[CacheIndex(q)]
    }

    function Fill(q: Query, s: Slot): (c: Caches)
      requires Valid()
      ensures c.Valid()
    {
      if q.HopQuery? then this.(hops := hops[CacheIndex(q) := s]) else this.(sprays := sprays[CacheIndex(q) := s])
    }
  }

  /** Does the slot answer the query? */
  predicate Matches(s: Slot, q: Query) { s.dest == q.dest && (q.SprayQuery? ==> s.flow == q.flow) }

  function FlowOf(q: Query): u32 { if q.SprayQuery? then q.flow else 0 }

  /** Where a writer stands; `at` is the position of its shard write in the log. */
  datatype Writer = WriterIdle | WroteShard(op: WriteOp, at: nat) | WroteMap(op: WriteOp, at: nat)

  /** Where a reader stands. `began` is the number of writes when it began, `pending` the writes
      that had not yet been completed by their bump. */
  datatype Reader =
    | ReaderIdle
    | EpochLoaded(q: Query, epoch: nat, began: nat, pending: set<nat>)
    | CacheMissed(q: Query, epoch: nat, began: nat, pending: set<nat>)
    | ShardRead(q: Query, epoch: nat, began: nat, pending: set<nat>, answer: Option<Id>, asOf: nat)
    | Done(q: Query, began: nat, pending: set<nat>, answer: Option<Id>, asOf: nat)

  /** The logs of all shard writes and of all map writes are history: no step reads them. */
  datatype State = State(
    shards: Shards, entries: OMap<RouteEntry>, epoch: nat,
    writers: seq<Writer>, readers: seq<Reader>, caches: seq<Caches>,
    log: seq<WriteOp>, mapLog: seq<WriteOp>)

  datatype Event =
    | WriteShard(w: nat, op: WriteOp) | WriteMap(w: nat) | Bump(w: nat)
    | LoadEpoch(t: nat, q: Query) | CheckCache(t: nat) | ReadShard(t: nat) | FillCache(t: nat) | Return(t: nat)

  /** The shard writes whose epoch bump has not happened yet. */
  function Pending(ws: seq<Writer>): set<nat> {
    set w | 0 <= w < |ws| && !ws[w].WriterIdle? :: ws[w].at
  }

  /** One step; an event that does not fit the program counters does nothing. */
  function Step(s: State, e: Event): (r: State)
    requires Shape(s)
    ensures Shape(r)
  {
    match e
    case WriteShard(w, op) =>
      if w < |s.writers| && s.writers[w].WriterIdle? then
        s.(shards := ShardWrite(s.shards, op), log := s.log + [op],
           writers := s.writers[w := WroteShard(op, |s.log|)])
      else s
    case WriteMap(w) =>
      if w < |s.writers| && s.writers[w].WroteShard? then
        s.(entries := MapWrite(s.entries, s.writers[w].op), mapLog := s.mapLog + [s.writers[w].op],
           writers := s.writers[w := WroteMap(s.writers[w].op, s.writers[w].at)])
      else s
    case Bump(w) =>
      if w < |s.writers| && s.writers[w].WroteMap? then
        s.(epoch := s.epoch + 1, writers := s.writers[w := WriterIdle])
      else s
    case LoadEpoch(t, q) =>
      if t < |s.readers| && s.readers[t].ReaderIdle? then
        s.(readers := s.readers[t := EpochLoaded(q, s.epoch, |s.log|, Pending(s.writers))])
      else s
    case CheckCache(t) =>
      if t < |s.readers| && s.readers[t].EpochLoaded? then
        var r := s.readers[t];
        var slot := s.caches[t].SlotFor(r.q);
        if slot.epoch == r.epoch && Matches(slot, r.q)
        then s.(readers := s.readers[t := Done(r.q, r.began, r.pending, Some(slot.hop), slot.asOf)])
        else s.(readers := s.readers[t := CacheMissed(r.q, r.epoch, r.began, r.pending)])
      else s
    case ReadShard(t) =>
      if t < |s.readers| && s.readers[t].CacheMissed? then
        var r := s.readers[t];
        s.(readers := s.readers[t := ShardRead(r.q, r.epoch, r.began, r.pending, Answer(s.shards, r.q), |s.log|)])
      else s
    case FillCache(t) =>
      if t < |s.readers| && s.readers[t].ShardRead? then
        var r := s.readers[t];
        var done := s.(readers := s.readers[t := Done(r.q, r.began, r.pending, r.answer, r.asOf)]);
        if r.answer.None? then done
        else done.(caches := s.caches[t :=
          s.caches[t].Fill(r.q, Slot(r.epoch, r.q.dest, FlowOf(r.q), r.answer.value, r.asOf))])
      else s
    case Return(t) =>
      if t < |s.readers| && s.readers[t].Done? then s.(readers := s.readers[t := ReaderIdle]) else s
  }

  ghost predicate Shape(s: State) {
    |s.caches| == |s.readers| && forall t :: 0 <= t < |s.caches| ==> s.caches[t].Valid()
  }

  const ZeroId: Id := seq(32, _ => 0)
  const ColdSlots: seq<Slot> := seq(HOT_CACHE_SIZE, _ => Slot(0, ZeroId, 0, ZeroId, 0))

  function Initial(writers: nat, readers: nat): (s: State)
    ensures Shape(s)
  {
    State(EmptyTable().shards, [], 1, seq(writers, _ => WriterIdle), seq(readers, _ => ReaderIdle),
          seq(readers, _ => Caches(ColdSlots, ColdSlots)), [], [])
  }

  function Run(s: State, es: seq<Event>): (r: State)
    requires Shape(s)
    ensures Shape(r)
    decreases |es|
  {
    if es == [] then s else Step(Run(s, es[..|es| - 1]), es[|es| - 1])
  }

  // ---------- The invariant ----------

  /** The shards after all writes of the log, done one after another. */
  function LogShards(log: seq<WriteOp>): Shards { WriteAll(EmptyTable(), log).shards }

  /** The answer a reader gets when exactly the first `n` writes have reached the shards. */
  function AnswerAt(log: seq<WriteOp>, n: nat, q: Query): Option<Id>
    requires n <= |log|
  {
    Answer(LogShards(log[..n]), q)
  }

  /** Every write to `d` from position `from` and before `to` is in `pending`. */
  ghost predicate OnlyPending(log: seq<WriteOp>, pending: set<nat>, d: Id, from: nat, to: nat) {
    forall i :: from <= i < to && i < |log| && log[i].Dest() == d ==> i in pending
  }

  ghost predicate SlotOk(log: seq<WriteOp>, epoch: nat, pending: set<nat>, q: Query, s: Slot) {
    && s.epoch <= epoch
    && s.asOf <= |log|
    && (s.epoch > 0 ==> AnswerAt(log, s.asOf, q) == Some(s.hop))
    && (s.epoch == epoch ==> OnlyPending(log, pending, q.dest, s.asOf, |log|))
  }

  ghost predicate CachesOk(log: seq<WriteOp>, epoch: nat, pending: set<nat>, c: Caches) {
    && c.Valid()
    && (forall i :: 0 <= i < HOT_CACHE_SIZE ==> SlotOk(log, epoch, pending, HopQuery(c.hops[i].dest), c.hops[i]))
    && (forall i :: 0 <= i < HOT_CACHE_SIZE ==>
          SlotOk(log, epoch, pending, SprayQuery(c.sprays[i].dest, c.sprays[i].flow), c.sprays[i]))
  }

  ghost predicate ReaderOk(log: seq<WriteOp>, epoch: nat, pending: set<nat>, r: Reader, c: Caches)
    requires c.Valid()
  {
    match r
    case ReaderIdle => true
    case EpochLoaded(q, e, began, atStart) =>
      && 1 <= e <= epoch && began <= |log|
      && (c.SlotFor(q).epoch == e && Matches(c.SlotFor(q), q) ==>
            OnlyPending(log, atStart, q.dest, c.SlotFor(q).asOf, began))
    case CacheMissed(q, e, began, atStart) => 1 <= e <= epoch && began <= |log|
    case ShardRead(q, e, began, atStart, answer, asOf) =>
      && 1 <= e <= epoch && began <= asOf <= |log|
      && answer == AnswerAt(log, asOf, q)
      && (e == epoch ==> OnlyPending(log, pending, q.dest, asOf, |log|))
    case Done(q, began, atStart, answer, asOf) =>
      && began <= |log| && asOf <= |log|
      && answer == AnswerAt(log, asOf, q)
      && OnlyPending(log, atStart, q.dest, asOf, began)
  }

  ghost predicate WritersOk(s: State) {
    forall w :: 0 <= w < |s.writers| && !s.writers[w].WriterIdle? ==>
      s.writers[w].at < |s.log| && s.log[s.writers[w].at] == s.writers[w].op
  }

  ghost predicate Inv(s: State) {
    && Shape(s) && s.epoch >= 1
    && s.shards == LogShards(s.log)
    && WritersOk(s)
    && (forall t :: 0 <= t < |s.caches| ==> CachesOk(s.log, s.epoch, Pending(s.writers), s.caches[t]))
    && (forall t :: 0 <= t < |s.readers| ==> ReaderOk(s.log, s.epoch, Pending(s.writers), s.readers[t], s.caches[t]))
  }

  // ---------- How the parts of the invariant move ----------

  /** A further write, still pending, disturbs nothing that was known. */
  lemma AnswerStays(log: seq<WriteOp>, op: WriteOp, n: nat, q: Query)
    requires n <= |log|
    ensures AnswerAt(log + [op], n, q) == AnswerAt(log, n, q)
  {
    assert (log + [op])[..n] == log[..n];
  }

  lemma SlotGrows(log: seq<WriteOp>, op: WriteOp, epoch: nat, pending: set<nat>, more: set<nat>, q: Query, s: Slot)
    requires more == pending + {|log|} && SlotOk(log, epoch, pending, q, s)
    ensures SlotOk(log + [op], epoch, more, q, s)
  {
    hide AnswerAt, OnlyPending;
    AnswerStays(log, op, s.asOf, q);
    PendingGrows(log, op, pending, more, q.dest, s.asOf);
  }

  lemma PendingGrows(log: seq<WriteOp>, op: WriteOp, pending: set<nat>, more: set<nat>, d: Id, from: nat)
    requires more == pending + {|log|}
    ensures OnlyPending(log, pending, d, from, |log|) ==> OnlyPending(log + [op], more, d, from, |log + [op]|)
  {
  }

  lemma CachesGrow(log: seq<WriteOp>, op: WriteOp, epoch: nat, pending: set<nat>, more: set<nat>, c: Caches)
    requires more == pending + {|log|} && CachesOk(log, epoch, pending, c)
    ensures CachesOk(log + [op], epoch, more, c)
  {
    hide SlotOk;
    forall i | 0 <= i < HOT_CACHE_SIZE
      ensures SlotOk(log + [op], epoch, more, HopQuery(c.hops[i].dest), c.hops[i])
      ensures SlotOk(log + [op], epoch, more, SprayQuery(c.sprays[i].dest, c.sprays[i].flow), c.sprays[i])
    {
      SlotGrows(log, op, epoch, pending, more, HopQuery(c.hops[i].dest), c.hops[i]);
      SlotGrows(log, op, epoch, pending, more, SprayQuery(c.sprays[i].dest, c.sprays[i].flow), c.sprays[i]);
    }
  }

  lemma ReaderGrows(log: seq<WriteOp>, op: WriteOp, epoch: nat, pending: set<nat>, more: set<nat>, r: Reader, c: Caches)
    requires more == pending + {|log|} && c.Valid() && ReaderOk(log, epoch, pending, r, c)
    ensures ReaderOk(log + [op], epoch, more, r, c)
  {
    hide AnswerAt;
    if r.ShardRead? || r.Done? {
      AnswerStays(log, op, r.asOf, r.q);
    }
  }

  /** After a bump no tag is current, so no slot vouches for anything. */
  lemma EpochGrows(log: seq<WriteOp>, epoch: nat, pending: set<nat>, fewer: set<nat>, c: Caches, r: Reader)
    requires CachesOk(log, epoch, pending, c) && ReaderOk(log, epoch, pending, r, c)
    ensures CachesOk(log, epoch + 1, fewer, c) && ReaderOk(log, epoch + 1, fewer, r, c)
  {
  }

  lemma PendingAfterWrite(s: State, w: nat, op: WriteOp)
    requires Shape(s) && w < |s.writers| && s.writers[w].WriterIdle?
    ensures Pending(Step(s, WriteShard(w, op)).writers) == Pending(s.writers) + {|s.log|}
  {
    var t := Step(s, WriteShard(w, op));
    assert t.writers[w].at == |s.log|;
    forall p | p in Pending(s.writers)
      ensures p in Pending(t.writers)
    {
      var v :| 0 <= v < |s.writers| && !s.writers[v].WriterIdle? && s.writers[v].at == p;
      assert t.writers[v] == s.writers[v];
    }
  }

  lemma PendingAfterMap(s: State, w: nat)
    requires Shape(s) && w < |s.writers| && s.writers[w].WroteShard?
    ensures Pending(Step(s, WriteMap(w)).writers) == Pending(s.writers)
  {
    var t := Step(s, WriteMap(w));
    forall p | p in Pending(s.writers)
      ensures p in Pending(t.writers)
    {
      var v :| 0 <= v < |s.writers| && !s.writers[v].WriterIdle? && s.writers[v].at == p;
      assert !t.writers[v].WriterIdle? && t.writers[v].at == p;
    }
    forall p | p in Pending(t.writers)
      ensures p in Pending(s.writers)
    {
      var v :| 0 <= v < |t.writers| && !t.writers[v].WriterIdle? && t.writers[v].at == p;
      assert !s.writers[v].WriterIdle? && s.writers[v].at == p;
    }
  }

  lemma WriteShardKeepsInv(s: State, w: nat, op: WriteOp)
    requires Inv(s) && w < |s.writers| && s.writers[w].WriterIdle?
    ensures Inv(Step(s, WriteShard(w, op)))
  {
    hide CachesOk, ReaderOk, Pending, ShardWrite;
    var t := Step(s, WriteShard(w, op));
    PendingAfterWrite(s, w, op);
    assert t.log[..|t.log| - 1] == s.log;
    forall i | 0 <= i < |s.caches|
      ensures CachesOk(t.log, t.epoch, Pending(t.writers), t.caches[i])
      ensures ReaderOk(t.log, t.epoch, Pending(t.writers), t.readers[i], t.caches[i])
    {
      CachesGrow(s.log, op, s.epoch, Pending(s.writers), Pending(t.writers), s.caches[i]);
      ReaderGrows(s.log, op, s.epoch, Pending(s.writers), Pending(t.writers), s.readers[i], s.caches[i]);
    }
  }

  lemma WriteMapKeepsInv(s: State, w: nat)
    requires Inv(s) && w < |s.writers| && s.writers[w].WroteShard?
    ensures Inv(Step(s, WriteMap(w)))
  {
    hide CachesOk, ReaderOk, Pending, MapWrite, LogShards;
    PendingAfterMap(s, w);
  }

  lemma BumpKeepsInv(s: State, w: nat)
    requires Inv(s) && w < |s.writers| && s.writers[w].WroteMap?
    ensures Inv(Step(s, Bump(w)))
  {
    hide CachesOk, ReaderOk, Pending, LogShards;
    var t := Step(s, Bump(w));
    forall i | 0 <= i < |s.caches|
      ensures CachesOk(t.log, t.epoch, Pending(t.writers), t.caches[i])
      ensures ReaderOk(t.log, t.epoch, Pending(t.writers), t.readers[i], t.caches[i])
    {
      EpochGrows(s.log, s.epoch, Pending(s.writers), Pending(t.writers), s.caches[i], s.readers[i]);
    }
  }

  // ---------- Reader steps ----------

  lemma SlotOfQuery(log: seq<WriteOp>, epoch: nat, pending: set<nat>, q: Query, c: Caches)
    requires CachesOk(log, epoch, pending, c) && Matches(c.SlotFor(q), q)
    ensures SlotOk(log, epoch, pending, q, c.SlotFor(q))
  {
  }

  lemma LoadedReader(log: seq<WriteOp>, epoch: nat, pending: set<nat>, q: Query, c: Caches)
    requires CachesOk(log, epoch, pending, c) && epoch >= 1
    ensures ReaderOk(log, epoch, pending, EpochLoaded(q, epoch, |log|, pending), c)
  {
    if Matches(c.SlotFor(q), q) {
      SlotOfQuery(log, epoch, pending, q, c);
    }
  }

  lemma HitReader(log: seq<WriteOp>, epoch: nat, pending: set<nat>, r: Reader, c: Caches)
    requires CachesOk(log, epoch, pending, c) && ReaderOk(log, epoch, pending, r, c)
    requires r.EpochLoaded? && c.SlotFor(r.q).epoch == r.epoch && Matches(c.SlotFor(r.q), r.q)
    ensures var slot := c.SlotFor(r.q);
            ReaderOk(log, epoch, pending, Done(r.q, r.began, r.pending, Some(slot.hop), slot.asOf), c)
  {
    SlotOfQuery(log, epoch, pending, r.q, c);
  }

  lemma ReadingReader(log: seq<WriteOp>, epoch: nat, pending: set<nat>, r: Reader, c: Caches, shards: Shards)
    requires c.Valid() && ReaderOk(log, epoch, pending, r, c) && r.CacheMissed? && shards == LogShards(log)
    ensures ReaderOk(log, epoch, pending,
                     ShardRead(r.q, r.epoch, r.began, r.pending, Answer(shards, r.q), |log|), c)
  {
    assert log[..|log|] == log;
  }

  lemma FilledCaches(log: seq<WriteOp>, epoch: nat, pending: set<nat>, r: Reader, c: Caches)
    requires CachesOk(log, epoch, pending, c) && ReaderOk(log, epoch, pending, r, c)
    requires r.ShardRead? && r.answer.Some?
    ensures CachesOk(log, epoch, pending,
                     c.Fill(r.q, Slot(r.epoch, r.q.dest, FlowOf(r.q), r.answer.value, r.asOf)))
  {
    hide AnswerAt, OnlyPending;
    var slot := Slot(r.epoch, r.q.dest, FlowOf(r.q), r.answer.value, r.asOf);
    assert SlotOk(log, epoch, pending, r.q, slot);
    hide SlotOk;
  }

  lemma AnsweredReader(log: seq<WriteOp>, epoch: nat, pending: set<nat>, r: Reader, c: Caches, d: Caches)
    requires c.Valid() && d.Valid() && r.ShardRead? && ReaderOk(log, epoch, pending, r, c)
    ensures ReaderOk(log, epoch, pending, Done(r.q, r.began, r.pending, r.answer, r.asOf), d)
  {
  }

  /** One thread's program counter and caches may change, as long as they stay sound. */
  lemma ReaderMoves(s: State, t: nat, r: Reader, c: Caches)
    requires Inv(s) && t < |s.readers| && c.Valid()
    requires CachesOk(s.log, s.epoch, Pending(s.writers), c) && ReaderOk(s.log, s.epoch, Pending(s.writers), r, c)
    ensures Inv(s.(readers := s.readers[t := r], caches := s.caches[t := c]))
  {
    hide CachesOk, ReaderOk, LogShards;
  }

  lemma ReaderStepKeepsInv(s: State, e: Event)
    requires Inv(s) && (e.LoadEpoch? || e.CheckCache? || e.ReadShard? || e.FillCache? || e.Return?)
    ensures Inv(Step(s, e))
  {
    if e.t < |s.readers| && Step(s, e) != s {
      var r, c := s.readers[e.t], s.caches[e.t];
      var next := Step(s, e);
      ReaderStepIsLocal(s, e);
      hide Step, CachesOk, ReaderOk, Pending, LogShards, Inv;
      ReaderStepSound(s, e);
      ReaderMoves(s, e.t, next.readers[e.t], next.caches[e.t]);
    }
  }

  /** A reader's step changes that reader and its caches only. */
  lemma ReaderStepIsLocal(s: State, e: Event)
    requires Shape(s) && (e.LoadEpoch? || e.CheckCache? || e.ReadShard? || e.FillCache? || e.Return?)
    requires e.t < |s.readers|
    ensures var next := Step(s, e);
            && Shape(next) && |next.readers| == |s.readers|
            && next == s.(readers := s.readers[e.t := next.readers[e.t]], caches := s.caches[e.t := next.caches[e.t]])
  {
    assert s.caches[e.t := s.caches[e.t]] == s.caches;
  }

  lemma ReaderStepSound(s: State, e: Event)
    requires Inv(s) && (e.LoadEpoch? || e.CheckCache? || e.ReadShard? || e.FillCache? || e.Return?)
    requires e.t < |s.readers| && Step(s, e) != s && |Step(s, e).readers| == |Step(s, e).caches| == |s.readers|
    ensures var next := Step(s, e);
            && next.caches[e.t].Valid()
            && CachesOk(s.log, s.epoch, Pending(s.writers), next.caches[e.t])
            && ReaderOk(s.log, s.epoch, Pending(s.writers), next.readers[e.t], next.caches[e.t])
  {
    hide CachesOk, ReaderOk, Pending, LogShards, Answer, ShardWrite, MapWrite, CacheIndex;
    var r, c := s.readers[e.t], s.caches[e.t];
    match e
    case LoadEpoch(t, q) => LoadedReader(s.log, s.epoch, Pending(s.writers), q, c);
    case CheckCache(t) =>
      if c.SlotFor(r.q).epoch == r.epoch && Matches(c.SlotFor(r.q), r.q) {
        HitReader(s.log, s.epoch, Pending(s.writers), r, c);
      } else {
        MissedReader(s.log, s.epoch, Pending(s.writers), r, c);
      }
    case ReadShard(t) => ReadingReader(s.log, s.epoch, Pending(s.writers), r, c, s.shards);
    case FillCache(t) =>
      if r.answer.Some? {
        FilledCaches(s.log, s.epoch, Pending(s.writers), r, c);
      }
      AnsweredReader(s.log, s.epoch, Pending(s.writers), r, c, Step(s, e).caches[t]);
    case Return(t) => IdleReader(s.log, s.epoch, Pending(s.writers), c);
  }

  lemma MissedReader(log: seq<WriteOp>, epoch: nat, pending: set<nat>, r: Reader, c: Caches)
    requires c.Valid() && r.EpochLoaded? && ReaderOk(log, epoch, pending, r, c)
    ensures ReaderOk(log, epoch, pending, CacheMissed(r.q, r.epoch, r.began, r.pending), c)
  {
  }

  lemma IdleReader(log: seq<WriteOp>, epoch: nat, pending: set<nat>, c: Caches)
    requires c.Valid()
    ensures ReaderOk(log, epoch, pending, ReaderIdle, c)
  {
  }

  /** No step of any reader or writer, in any order, breaks the invariant. */
  lemma StepKeepsInv(s: State, e: Event)
    requires Inv(s)
    ensures Inv(Step(s, e))
  {
    hide Inv;
    match e
    case WriteShard(w, op) => if w < |s.writers| && s.writers[w].WriterIdle? { WriteShardKeepsInv(s, w, op); }
    case WriteMap(w) => if w < |s.writers| && s.writers[w].WroteShard? { WriteMapKeepsInv(s, w); }
    case Bump(w) => if w < |s.writers| && s.writers[w].WroteMap? { BumpKeepsInv(s, w); }
    case _ => ReaderStepKeepsInv(s, e);
  }

  lemma InitialInv(writers: nat, readers: nat)
    ensures Inv(Initial(writers, readers))
  {
    assert Pending(Initial(writers, readers).writers) == {};
  }

  lemma {:induction false} RunKeepsInv(s: State, es: seq<Event>)
    requires Inv(s)
    ensures Inv(Run(s, es))
    decreases |es|
  {
    hide Step;
    if es != [] {
      RunKeepsInv(s, es[..|es| - 1]);
      StepKeepsInv(Run(s, es[..|es| - 1]), es[|es| - 1]);
    }
  }

  // ---------- Cache coherence ----------

  lemma OtherWritesDoNotMatter(shards: Shards, op: WriteOp, q: Query)
    requires op.Dest() != q.dest
    ensures Answer(ShardWrite(shards, op), q) == Answer(shards, q)
  {
  }

  /** Writes to other destinations leave an answer as it is. */
  lemma {:induction false} AnswerUnchanged(log: seq<WriteOp>, n: nat, q: Query)
    requires n <= |log| && forall i :: n <= i < |log| ==> log[i].Dest() != q.dest
    ensures AnswerAt(log, n, q) == Answer(LogShards(log), q)
    decreases |log|
  {
    if n == |log| {
      assert log[..n] == log;
    } else {
      var front := log[..|log| - 1];
      AnswerUnchanged(front, n, q);
      assert front[..n] == log[..n];
      OtherWritesDoNotMatter(LogShards(front), log[|log| - 1], q);
    }
  }

  /** In every reachable state a cache slot with the current tag gives the shards' answer, or a
      writer of that destination is between its shard write and its epoch bump. */
  lemma CurrentSlotAgrees(writers: nat, readers: nat, es: seq<Event>, t: nat, q: Query)
    requires t < readers
    ensures var s := Run(Initial(writers, readers), es);
            && Shape(s) && |s.caches| == readers
            && var slot := s.caches[t].SlotFor(q);
               (slot.epoch == s.epoch && Matches(slot, q) ==>
                  || Answer(s.shards, q) == Some(slot.hop)
                  || exists w :: 0 <= w < |s.writers| && !s.writers[w].WriterIdle? && s.writers[w].op.Dest() == q.dest)
  {
    InitialInv(writers, readers);
    RunKeepsInv(Initial(writers, readers), es);
    RunKeepsSize(Initial(writers, readers), es);
    var s := Run(Initial(writers, readers), es);
    var slot := s.caches[t].SlotFor(q);
    if slot.epoch == s.epoch && Matches(slot, q) {
      SlotOfQuery(s.log, s.epoch, Pending(s.writers), q, s.caches[t]);
      if i :| slot.asOf <= i < |s.log| && s.log[i].Dest() == q.dest {
        assert i in Pending(s.writers);
        var w :| 0 <= w < |s.writers| && !s.writers[w].WriterIdle? && s.writers[w].at == i;
        assert s.writers[w].op == s.log[i];
      } else {
        AnswerUnchanged(s.log, slot.asOf, q);
      }
    }
  }

  lemma {:induction false} RunKeepsSize(s: State, es: seq<Event>)
    requires Shape(s)
    ensures |Run(s, es).caches| == |s.caches| && s.log <= Run(s, es).log && s.mapLog <= Run(s, es).mapLog
    decreases |es|
  {
    if es != [] {
      RunKeepsSize(s, es[..|es| - 1]);
      StepKeepsSize(Run(s, es[..|es| - 1]), es[|es| - 1]);
    }
  }

  lemma StepKeepsSize(s: State, e: Event)
    requires Shape(s)
    ensures |Step(s, e).caches| == |s.caches| && s.log <= Step(s, e).log && s.mapLog <= Step(s, e).mapLog
  {
  }

  /** A lookup under way keeps its question and what it saw when it began. */
  predicate Asking(r: Reader, q: Query, began: nat, pending: set<nat>) {
    !r.ReaderIdle? && r.q == q && r.began == began && r.pending == pending
  }

  lemma {:induction false} LookupKeepsStart(s: State, es: seq<Event>, t: nat, q: Query, began: nat, pending: set<nat>)
    requires Shape(s) && t < |s.readers| && Asking(s.readers[t], q, began, pending)
    requires Return(t) !in es
    ensures var r := Run(s, es); Shape(r) && t < |r.readers| && Asking(r.readers[t], q, began, pending)
    decreases |es|
  {
    if es != [] {
      var front, last := es[..|es| - 1], es[|es| - 1];
      assert last in es && forall e :: e in front ==> e in es;
      LookupKeepsStart(s, front, t, q, began, pending);
      StepKeepsStart(Run(s, front), last, t, q, began, pending);
    }
  }

  lemma StepKeepsStart(s: State, e: Event, t: nat, q: Query, began: nat, pending: set<nat>)
    requires Shape(s) && t < |s.readers| && Asking(s.readers[t], q, began, pending) && e != Return(t)
    ensures t < |Step(s, e).readers| && Asking(Step(s, e).readers[t], q, began, pending)
  {
  }

  /** Freshness: whatever interleaving `before` led to the state a lookup starts in, and whatever
      `during` happens until it has its answer, the answer is that of some number `n` of writes
      from which no write to the destination is missing that had returned when it started. */
  lemma NoStaleAnswer(writers: nat, readers: nat, before: seq<Event>, t: nat, q: Query, during: seq<Event>)
    requires t < readers && Return(t) !in during
    ensures var start := Run(Initial(writers, readers), before);
            var end := Run(Step(start, LoadEpoch(t, q)), during);
            && |start.readers| == |end.readers| == readers
            && (start.readers[t].ReaderIdle? && end.readers[t].Done? ==>
                  exists n :: AnsweredAsOf(start, end, t, q, n))
  {
    var start := Run(Initial(writers, readers), before);
    var loaded := Step(start, LoadEpoch(t, q));
    var end := Run(loaded, during);
    InitialInv(writers, readers);
    RunKeepsInv(Initial(writers, readers), before);
    StepKeepsInv(start, LoadEpoch(t, q));
    RunKeepsInv(loaded, during);
    RunKeepsSize(Initial(writers, readers), before);
    RunKeepsSize(loaded, during);
    if start.readers[t].ReaderIdle? && end.readers[t].Done? {
      LookupKeepsStart(loaded, during, t, q, |start.log|, Pending(start.writers));
      var r := end.readers[t];
      assert ReaderOk(end.log, end.epoch, Pending(end.writers), r, end.caches[t]);
      assert AnsweredAsOf(start, end, t, q, r.asOf);
    }
  }

  /** The finished lookup answers as the shards did after `n` writes, and every later write to the
      destination that `start` already had was still without its bump in `start`. */
  ghost predicate AnsweredAsOf(start: State, end: State, t: nat, q: Query, n: nat) {
    && n <= |end.log| && start.log <= end.log
    && t < |end.readers| && end.readers[t].Done?
    && end.readers[t].answer == Answer(LogShards(end.log[..n]), q)
    && forall i :: n <= i < |start.log| && start.log[i].Dest() == q.dest ==> i in Pending(start.writers)
  }

  lemma StepGrowsLog(s: State, e: Event)
    requires Shape(s)
    ensures Step(s, e).log == s.log || (e.WriteShard? && Step(s, e).log == s.log + [e.op])
  {
  }

  /** What a run adds to the log comes from its shard writes. */
  lemma {:induction false} LogGrowsByWrites(s: State, es: seq<Event>, i: nat)
    requires Shape(s) && |s.log| <= i < |Run(s, es).log|
    ensures exists w :: WriteShard(w, Run(s, es).log[i]) in es
    decreases |es|
  {
    if es != [] {
      var front, last := es[..|es| - 1], es[|es| - 1];
      StepGrowsLog(Run(s, front), last);
      hide Step;
      if i < |Run(s, front).log| {
        LogGrowsByWrites(s, front, i);
        var w :| WriteShard(w, Run(s, front).log[i]) in front;
        assert WriteShard(w, Run(s, es).log[i]) in es;
      } else {
        assert last in es && WriteShard(last.w, Run(s, es).log[i]) == last;
      }
    }
  }

  /** In every run: with no writer of the destination under way when a lookup starts, and none
      starting before it has its answer, the answer is what the shards hold. */
  lemma QuietLookupIsExact(writers: nat, readers: nat, before: seq<Event>, t: nat, q: Query, during: seq<Event>)
    requires t < readers && Return(t) !in during
    requires var start := Run(Initial(writers, readers), before);
             forall w :: 0 <= w < |start.writers| && !start.writers[w].WriterIdle? ==>
               start.writers[w].op.Dest() != q.dest
    requires forall w, op :: WriteShard(w, op) in during ==> op.Dest() != q.dest
    ensures var start := Run(Initial(writers, readers), before);
            var end := Run(Step(start, LoadEpoch(t, q)), during);
            && |start.readers| == |end.readers| == readers
            && (start.readers[t].ReaderIdle? && end.readers[t].Done? ==>
                  end.readers[t].answer == Answer(end.shards, q))
  {
    var start := Run(Initial(writers, readers), before);
    var loaded := Step(start, LoadEpoch(t, q));
    var end := Run(loaded, during);
    NoStaleAnswer(writers, readers, before, t, q, during);
    InitialInv(writers, readers);
    RunKeepsInv(Initial(writers, readers), before);
    StepKeepsInv(start, LoadEpoch(t, q));
    RunKeepsInv(loaded, during);
    InvShards(end);
    StartLog(start, t, q);
    hide Inv, Run, Step, Pending, AnsweredAsOf;
    if start.readers[t].ReaderIdle? && end.readers[t].Done? {
      var n :| AnsweredAsOf(start, end, t, q, n);
      QuietPending(start, q.dest);
      forall i | |start.log| <= i < |end.log|
        ensures end.log[i].Dest() != q.dest
      {
        LogGrowsByWrites(loaded, during, i);
      }
      QuietAnswer(start, end, t, q, n);
    }
  }

  lemma QuietAnswer(start: State, end: State, t: nat, q: Query, n: nat)
    requires AnsweredAsOf(start, end, t, q, n) && end.shards == LogShards(end.log)
    requires forall i :: i in Pending(start.writers) && i < |start.log| ==> start.log[i].Dest() != q.dest
    requires forall i :: |start.log| <= i < |end.log| ==> end.log[i].Dest() != q.dest
    ensures end.readers[t].answer == Answer(end.shards, q)
  {
    hide Pending, LogShards, Answer;
    assert forall i :: n <= i < |start.log| ==> end.log[i] == start.log[i];
    AnswerUnchanged(end.log, n, q);
  }

  lemma InvShards(s: State)
    requires Inv(s)
    ensures s.shards == LogShards(s.log)
  {
  }

  lemma StartLog(s: State, t: nat, q: Query)
    requires Inv(s)
    ensures WritersOk(s) && Step(s, LoadEpoch(t, q)).log == s.log
  {
  }

  lemma QuietPending(s: State, d: Id)
    requires WritersOk(s)
    requires forall w :: 0 <= w < |s.writers| && !s.writers[w].WriterIdle? ==> s.writers[w].op.Dest() != d
    ensures forall i :: i in Pending(s.writers) ==> i < |s.log| && s.log[i].Dest() != d
  {
  }

  // ---------- Shards and ordered map ----------

  ghost predicate OneWriterPerDest(ws: seq<Writer>) {
    forall v, w :: 0 <= v < w < |ws| && !ws[v].WriterIdle? && !ws[w].WriterIdle? ==>
      ws[v].op.Dest() != ws[w].op.Dest()
  }

  /** No two writers of one destination are ever under way at once. */
  ghost predicate Serialised(s: State, es: seq<Event>)
    requires Shape(s)
    decreases |es|
  {
    OneWriterPerDest(Run(s, es).writers) && (es != [] ==> Serialised(s, es[..|es| - 1]))
  }

  function Written(op: WriteOp): Option<RouteEntry> {
    match op case Put(e) => Some(e) case Del(_) => None
  }

  /** Is some writer of `d` between its two locked sections? */
  ghost predicate Between(ws: seq<Writer>, d: Id) {
    exists w :: 0 <= w < |ws| && ws[w].WroteShard? && ws[w].op.Dest() == d
  }

  /** The map agrees with the shards wherever no writer stands between the two. */
  ghost predicate MapAgrees(s: State) {
    && HomeOnly(s.shards)
    && Ascending(s.entries)
    && (forall w :: 0 <= w < |s.writers| && s.writers[w].WroteShard? ==>
          ShardGet(s.shards, s.writers[w].op.Dest()) == Written(s.writers[w].op))
    && (forall d: Id :: !Between(s.writers, d) ==> Get(ToMap(s.entries), d) == ShardGet(s.shards, d))
  }

  lemma MapWriteMeaning(entries: OMap<RouteEntry>, op: WriteOp)
    requires Ascending(entries)
    ensures Ascending(MapWrite(entries, op))
    ensures Get(ToMap(MapWrite(entries, op)), op.Dest()) == Written(op)
    ensures forall d: Id :: d != op.Dest() ==> Get(ToMap(MapWrite(entries, op)), d) == Get(ToMap(entries), d)
  {
    match op
    case Put(e) => InsertMeaning(entries, e.destId, e);
    case Del(k) => RemoveMeaning(entries, k);
  }

  lemma ShardWriteAgrees(s: State, w: nat, op: WriteOp)
    requires Shape(s) && MapAgrees(s) && w < |s.writers| && s.writers[w].WriterIdle?
    requires OneWriterPerDest(Step(s, WriteShard(w, op)).writers)
    ensures MapAgrees(Step(s, WriteShard(w, op)))
  {
    var t := Step(s, WriteShard(w, op));
    ShardWriteMeaning(s.shards, op);
    hide ShardWrite, HomeOnly, ShardGet;
    assert t.writers[w] == WroteShard(op, |s.log|);
    assert Between(t.writers, op.Dest());
    forall d: Id | Between(s.writers, d)
      ensures Between(t.writers, d)
    {
      var v :| 0 <= v < |s.writers| && s.writers[v].WroteShard? && s.writers[v].op.Dest() == d;
      assert t.writers[v] == s.writers[v];
    }
    forall v | 0 <= v < |s.writers| && v != w && s.writers[v].WroteShard?
      ensures t.writers[v] == s.writers[v] && s.writers[v].op.Dest() != op.Dest()
    {
      assert t.writers[v] == s.writers[v];
    }
  }

  lemma MapWriteAgrees(s: State, w: nat)
    requires Shape(s) && MapAgrees(s) && w < |s.writers| && s.writers[w].WroteShard?
    ensures MapAgrees(Step(s, WriteMap(w)))
  {
    var op := s.writers[w].op;
    var t := Step(s, WriteMap(w));
    MapWriteMeaning(s.entries, op);
    hide MapWrite, HomeOnly, ShardGet, ToMap, Ascending;
    forall d: Id | Between(s.writers, d) && d != op.Dest()
      ensures Between(t.writers, d)
    {
      var v :| 0 <= v < |s.writers| && s.writers[v].WroteShard? && s.writers[v].op.Dest() == d;
      assert t.writers[v] == s.writers[v];
    }
  }

  lemma BumpAgrees(s: State, w: nat)
    requires Shape(s) && MapAgrees(s) && w < |s.writers| && s.writers[w].WroteMap?
    ensures MapAgrees(Step(s, Bump(w)))
  {
    hide HomeOnly, ShardGet, ToMap, Ascending;
    var t := Step(s, Bump(w));
    forall d: Id | Between(s.writers, d)
      ensures Between(t.writers, d)
    {
      var v :| 0 <= v < |s.writers| && s.writers[v].WroteShard? && s.writers[v].op.Dest() == d;
      assert t.writers[v] == s.writers[v];
    }
  }

  lemma ReaderKeepsRoutes(s: State, e: Event)
    requires Shape(s) && (e.LoadEpoch? || e.CheckCache? || e.ReadShard? || e.FillCache? || e.Return?)
    ensures var t := Step(s, e); t.shards == s.shards && t.entries == s.entries && t.writers == s.writers
  {
  }

  lemma StepAgrees(s: State, e: Event)
    requires Shape(s) && MapAgrees(s) && OneWriterPerDest(Step(s, e).writers)
    ensures MapAgrees(Step(s, e))
  {
    hide MapAgrees, OneWriterPerDest;
    match e
    case WriteShard(w, op) => if w < |s.writers| && s.writers[w].WriterIdle? { ShardWriteAgrees(s, w, op); }
    case WriteMap(w) => if w < |s.writers| && s.writers[w].WroteShard? { MapWriteAgrees(s, w); }
    case Bump(w) => if w < |s.writers| && s.writers[w].WroteMap? { BumpAgrees(s, w); }
    case _ =>
      ReaderKeepsRoutes(s, e);
      SameRoutesAgree(s, Step(s, e));
  }

  lemma SameRoutesAgree(s: State, t: State)
    requires MapAgrees(s) && t.shards == s.shards && t.entries == s.entries && t.writers == s.writers
    ensures MapAgrees(t)
  {
  }

  /** With serialised writers the ordered map and the shards hold the same routes, except for a
      destination whose writer stands between its two locked sections. */
  lemma {:induction false} SerialisedWritersAgree(writers: nat, readers: nat, es: seq<Event>)
    requires Serialised(Initial(writers, readers), es)
    ensures MapAgrees(Run(Initial(writers, readers), es))
    decreases |es|
  {
    var s := Initial(writers, readers);
    if es == [] {
      assert HomeOnly(s.shards);
    } else {
      SerialisedWritersAgree(writers, readers, es[..|es| - 1]);
      StepAgrees(Run(s, es[..|es| - 1]), es[|es| - 1]);
    }
  }

  // ---------- Overlapping writers ----------

  /** What the last write of `d` in a log leaves there. */
  function LastWritten(log: seq<WriteOp>, d: Id): Option<RouteEntry>
    decreases |log|
  {
    if log == [] then None
    else
      var last := log[|log| - 1];
      if last.Dest() == d then Written(last) else LastWritten(log[..|log| - 1], d)
  }

  /** Shards and map hold what their own last writes left. */
  ghost predicate FollowsLogs(s: State) {
    && HomeOnly(s.shards) && Ascending(s.entries)
    && (forall d: Id :: ShardGet(s.shards, d) == LastWritten(s.log, d))
    && (forall d: Id :: Get(ToMap(s.entries), d) == LastWritten(s.mapLog, d))
  }

  lemma OneMoreWritten(log: seq<WriteOp>, op: WriteOp, d: Id)
    ensures LastWritten(log + [op], d) == if op.Dest() == d then Written(op) else LastWritten(log, d)
  {
    assert (log + [op])[..|log|] == log;
  }

  // ---------- Answers in terms of writes ----------

  /** What a lookup makes of an entry: the next hop, or the flow's own channel. */
  function FieldOf(e: Option<RouteEntry>, q: Query): Option<Id> {
    match e
    case None => None
    case Some(r) =>
      match q
      case HopQuery(_) => Some(r.nextHopId)
      case SprayQuery(_, flow) => Some(Channels(r)[flow % (1 + |r.alternates|)])
  }

  lemma {:induction false} LogShardsHold(log: seq<WriteOp>, d: Id)
    ensures HomeOnly(LogShards(log)) && ShardGet(LogShards(log), d) == LastWritten(log, d)
    decreases |log|
  {
    if log == [] {
      assert HomeOnly(EmptyTable().shards);
    } else {
      var front, last := log[..|log| - 1], log[|log| - 1];
      LogShardsHold(front, d);
      hide ShardWrite, HomeOnly, ShardGet, MapWrite;
      ShardWriteMeaning(LogShards(front), last);
    }
  }

  /** The answer after some writes is read off the last write of the destination. */
  lemma AnswerIsLastWrite(log: seq<WriteOp>, q: Query)
    ensures Answer(LogShards(log), q) == FieldOf(LastWritten(log, q.dest), q)
  {
    LogShardsHold(log, q.dest);
    hide LogShards, LastWritten, ShardGet;
    if q.SprayQuery? && LastWritten(log, q.dest).Some? {
      PrimaryIsOwn(LastWritten(log, q.dest).value, q.flow);
    }
  }

  /** `NoStaleAnswer` without shards: the lookup answers from the last write of the destination
      among the first `n`, where later ones were still without their bump when it started. */
  lemma FreshAnswer(writers: nat, readers: nat, before: seq<Event>, t: nat, q: Query, during: seq<Event>)
    requires t < readers && Return(t) !in during
    ensures var start := Run(Initial(writers, readers), before);
            var end := Run(Step(start, LoadEpoch(t, q)), during);
            && |start.readers| == |end.readers| == readers
            && (start.readers[t].ReaderIdle? && end.readers[t].Done? ==>
                  exists n :: AnswersFrom(start, end, t, q, n))
  {
    hide Run, Step, AnsweredAsOf, AnswersFrom;
    NoStaleAnswer(writers, readers, before, t, q, during);
    var start := Run(Initial(writers, readers), before);
    var end := Run(Step(start, LoadEpoch(t, q)), during);
    if start.readers[t].ReaderIdle? && end.readers[t].Done? {
      var n :| AnsweredAsOf(start, end, t, q, n);
      AsOfIsFrom(start, end, t, q, n);
    }
  }

  lemma AsOfIsFrom(start: State, end: State, t: nat, q: Query, n: nat)
    requires AnsweredAsOf(start, end, t, q, n)
    ensures AnswersFrom(start, end, t, q, n)
  {
    hide Answer, LogShards, FieldOf, LastWritten, Pending;
    AnswerIsLastWrite(end.log[..n], q);
  }

  ghost predicate AnswersFrom(start: State, end: State, t: nat, q: Query, n: nat) {
    && n <= |end.log| && start.log <= end.log
    && t < |end.readers| && end.readers[t].Done?
    && end.readers[t].answer == FieldOf(LastWritten(end.log[..n], q.dest), q)
    && forall i :: n <= i < |start.log| && start.log[i].Dest() == q.dest ==> i in Pending(start.writers)
  }

  /** What a reader put into its cache answers its next lookup of the same, until the epoch moves. */
  lemma FilledSlotHits(s: State, t: nat, later: State)
    requires Shape(s) && t < |s.readers| && s.readers[t].ShardRead? && s.readers[t].answer.Some?
    requires Shape(later) && t < |later.readers| && later.readers[t].EpochLoaded?
    requires later.caches[t] == Step(s, FillCache(t)).caches[t]
    requires later.readers[t].q == s.readers[t].q && later.readers[t].epoch == s.readers[t].epoch
    ensures var r := Step(later, CheckCache(t)).readers[t];
            r.Done? && r.q == s.readers[t].q && r.answer == s.readers[t].answer
  {
  }

  // ---------- What shards and map hold ----------

  lemma ShardWriteFollows(s: State, w: nat, op: WriteOp)
    requires Shape(s) && FollowsLogs(s) && w < |s.writers| && s.writers[w].WriterIdle?
    ensures FollowsLogs(Step(s, WriteShard(w, op)))
  {
    var t := Step(s, WriteShard(w, op));
    ShardWriteMeaning(s.shards, op);
    hide ShardWrite, HomeOnly, ShardGet, LastWritten;
    forall d: Id
      ensures ShardGet(t.shards, d) == LastWritten(t.log, d)
    {
      OneMoreWritten(s.log, op, d);
    }
  }

  lemma MapWriteFollows(s: State, w: nat)
    requires Shape(s) && FollowsLogs(s) && w < |s.writers| && s.writers[w].WroteShard?
    ensures FollowsLogs(Step(s, WriteMap(w)))
  {
    var op := s.writers[w].op;
    var t := Step(s, WriteMap(w));
    MapWriteMeaning(s.entries, op);
    hide MapWrite, HomeOnly, ShardGet, ToMap, Ascending, LastWritten;
    forall d: Id
      ensures Get(ToMap(t.entries), d) == LastWritten(t.mapLog, d)
    {
      OneMoreWritten(s.mapLog, op, d);
    }
  }

  /** Any step, of overlapping writers too. */
  lemma StepFollows(s: State, e: Event)
    requires Shape(s) && FollowsLogs(s)
    ensures FollowsLogs(Step(s, e))
  {
    match e
    case WriteShard(w, op) => if w < |s.writers| && s.writers[w].WriterIdle? { ShardWriteFollows(s, w, op); }
    case WriteMap(w) => if w < |s.writers| && s.writers[w].WroteShard? { MapWriteFollows(s, w); }
    case _ =>
      SameRoutesAndLogs(s, e);
      hide Step, HomeOnly, ShardGet, ToMap, Ascending, LastWritten;
  }

  lemma SameRoutesAndLogs(s: State, e: Event)
    requires Shape(s) && !e.WriteShard? && !e.WriteMap?
    ensures var t := Step(s, e);
            t.shards == s.shards && t.entries == s.entries && t.log == s.log && t.mapLog == s.mapLog
  {
  }

  lemma {:induction false} RunFollows(writers: nat, readers: nat, es: seq<Event>)
    ensures FollowsLogs(Run(Initial(writers, readers), es))
    decreases |es|
  {
    if es == [] {
      assert HomeOnly(Initial(writers, readers).shards);
    } else {
      hide FollowsLogs, Step;
      RunFollows(writers, readers, es[..|es| - 1]);
      StepFollows(Run(Initial(writers, readers), es[..|es| - 1]), es[|es| - 1]);
    }
  }

  /** `lookup_or_predict`: the exact lookup's answer or, after a miss, what the next-hop array says
      when it is read. The array is rebuilt with every map write, under the same lock. */
  function OrPredict(exact: Option<Id>, reading: State, src: Id, dst: Id, flow: u32): Option<Id> {
    if exact.Some? then exact else Predict(NextHops(reading.entries), src, dst, flow)
  }

  /** Whatever writers do before, during and after the exact lookup: the combined lookup answers
      None exactly when the exact one missed and the map was empty at the moment the array was read;
      what it predicts is the next hop of a route the map held at that moment. */
  lemma CombinedLookupIsTotal(writers: nat, readers: nat, before: seq<Event>, t: nat, dst: Id, during: seq<Event>,
                              after: seq<Event>, src: Id, flow: u32)
    requires t < readers && Return(t) !in during
    ensures var start := Run(Initial(writers, readers), before);
            var end := Run(Step(start, LoadEpoch(t, HopQuery(dst))), during);
            var reading := Run(end, after);
            && |start.readers| == |end.readers| == readers
            && (start.readers[t].ReaderIdle? && end.readers[t].Done? ==>
                  var exact := end.readers[t].answer;
                  var r := OrPredict(exact, reading, src, dst, flow);
                  && (exists n :: AnsweredAsOf(start, end, t, HopQuery(dst), n))
                  && (r == None <==> exact == None && ToMap(reading.entries) == map[])
                  && (exact == None && r.Some? ==>
                        exists k :: k in ToMap(reading.entries) && ToMap(reading.entries)[k].nextHopId == r.value))
  {
    var start := Run(Initial(writers, readers), before);
    var first := [LoadEpoch(t, HopQuery(dst))];
    NoStaleAnswer(writers, readers, before, t, HopQuery(dst), during);
    RunOneStep(start, first[0]);
    RunAppend(start, first, during);
    RunAppend(start, first + during, after);
    RunAppend(Initial(writers, readers), before, first + during + after);
    RunFollows(writers, readers, before + (first + during + after));
    hide Run, Step, AnsweredAsOf, Predict, ToMap;
    var reading := Run(Run(Step(start, first[0]), during), after);
    PredictFromMap(reading.entries, src, dst, flow);
  }

  lemma RunOneStep(s: State, e: Event)
    requires Shape(s)
    ensures Run(s, [e]) == Step(s, e)
  {
    assert [e][..0] == [];
    hide Step;
  }

  /** How many writers have this write in the shards and not yet in the map. */
  function Underway(ws: seq<Writer>, op: WriteOp): nat
    decreases |ws|
  {
    if ws == [] then 0 else Underway(ws[..|ws| - 1], op) + Half(ws[|ws| - 1], op)
  }

  function Half(w: Writer, op: WriteOp): nat { if w.WroteShard? && w.op == op then 1 else 0 }

  lemma {:induction false} UnderwayUpdate(ws: seq<Writer>, w: nat, next: Writer, op: WriteOp)
    requires w < |ws|
    ensures Underway(ws[w := next], op) + Half(ws[w], op) == Underway(ws, op) + Half(next, op)
    decreases |ws|
  {
    var front := ws[..|ws| - 1];
    if w < |ws| - 1 {
      UnderwayUpdate(front, w, next, op);
      assert ws[w := next][..|ws| - 1] == front[w := next];
    } else {
      assert ws[w := next][..|ws| - 1] == front;
    }
  }

  lemma {:induction false} IdleUnderway(ws: seq<Writer>, op: WriteOp)
    requires forall w :: 0 <= w < |ws| ==> !ws[w].WroteShard?
    ensures Underway(ws, op) == 0
    decreases |ws|
  {
    if ws != [] {
      IdleUnderway(ws[..|ws| - 1], op);
    }
  }

  /** How often a write is in a log. */
  function Times(log: seq<WriteOp>, op: WriteOp): nat { multiset(log)[op] }

  lemma TimesMore(log: seq<WriteOp>, o: WriteOp, op: WriteOp)
    ensures Times(log + [o], op) == Times(log, op) + (if o == op then 1 else 0)
  {
  }

  lemma StepKeepsWrites(s: State, e: Event, op: WriteOp)
    requires Shape(s) && Times(s.log, op) == Times(s.mapLog, op) + Underway(s.writers, op)
    ensures var t := Step(s, e); Times(t.log, op) == Times(t.mapLog, op) + Underway(t.writers, op)
  {
    hide ShardWrite, MapWrite, Underway, Times;
    match e
    case WriteShard(w, o) =>
      if w < |s.writers| && s.writers[w].WriterIdle? {
        UnderwayUpdate(s.writers, w, WroteShard(o, |s.log|), op);
        TimesMore(s.log, o, op);
      }
    case WriteMap(w) =>
      if w < |s.writers| && s.writers[w].WroteShard? {
        UnderwayUpdate(s.writers, w, WroteMap(s.writers[w].op, s.writers[w].at), op);
        TimesMore(s.mapLog, s.writers[w].op, op);
      }
    case Bump(w) =>
      if w < |s.writers| && s.writers[w].WroteMap? { UnderwayUpdate(s.writers, w, WriterIdle, op); }
    case _ =>
      ReaderKeepsRoutes(s, e);
      SameRoutesAndLogs(s, e);
      hide Step;
  }

  /** Every write that reached the shards reaches the map, once, and no other does. */
  lemma {:induction false} RunKeepsWrites(writers: nat, readers: nat, es: seq<Event>, op: WriteOp)
    ensures var s := Run(Initial(writers, readers), es);
            Times(s.log, op) == Times(s.mapLog, op) + Underway(s.writers, op)
    decreases |es|
  {
    if es == [] {
      IdleUnderway(Initial(writers, readers).writers, op);
    } else {
      hide Step, Underway, Times;
      RunKeepsWrites(writers, readers, es[..|es| - 1], op);
      StepKeepsWrites(Run(Initial(writers, readers), es[..|es| - 1]), es[|es| - 1], op);
    }
  }

  ghost predicate AllIdle(s: State) { forall w :: 0 <= w < |s.writers| ==> s.writers[w].WriterIdle? }

  ghost predicate Agrees(s: State, d: Id) { ShardGet(s.shards, d) == Get(ToMap(s.entries), d) }

  /** Any run, overlapping writers included: shards and map agree on a destination exactly when
      the last shard write and the last map write of it leave the same. When all writers are
      idle, the two logs hold the same writes and can differ in their order only. */
  lemma AgreeExactlyWhen(writers: nat, readers: nat, es: seq<Event>, d: Id)
    ensures var s := Run(Initial(writers, readers), es);
            && (Agrees(s, d) <==> LastWritten(s.log, d) == LastWritten(s.mapLog, d))
            && (AllIdle(s) ==> multiset(s.log) == multiset(s.mapLog))
  {
    RunFollows(writers, readers, es);
    var s := Run(Initial(writers, readers), es);
    hide Run, ShardGet, ToMap, LastWritten;
    if AllIdle(s) {
      forall op
        ensures multiset(s.log)[op] == multiset(s.mapLog)[op]
      {
        RunKeepsWrites(writers, readers, es, op);
        IdleUnderway(s.writers, op);
      }
    }
  }

  /** Two writers of one destination whose shard writes and map writes happen in opposite order. */
  function Overlap(v: nat, a: WriteOp, w: nat, b: WriteOp): (es: seq<Event>)
    ensures |es| == 6
  {
    [WriteShard(v, a), WriteShard(w, b), WriteMap(w), WriteMap(v), Bump(v), Bump(w)]
  }

  /** From every reachable state, any two idle writers of one destination whose writes leave
      different routes can end with the one in the shards and the other in the map, and stay idle:
      whenever two such writes may overlap, agreement is lost under some schedule. */
  lemma OverlappingWritersDisagree(writers: nat, readers: nat, es: seq<Event>, v: nat, w: nat, a: WriteOp, b: WriteOp)
    requires v < writers && w < writers && v != w && a.Dest() == b.Dest()
    requires var s := Run(Initial(writers, readers), es);
             |s.writers| == writers && s.writers[v].WriterIdle? && s.writers[w].WriterIdle?
    ensures var s := Run(Initial(writers, readers), es);
            var t := Run(s, Overlap(v, a, w, b));
            && t.writers == s.writers
            && ShardGet(t.shards, a.Dest()) == Written(b)
            && Get(ToMap(t.entries), a.Dest()) == Written(a)
            && (Written(a) != Written(b) <==> ShardGet(t.shards, a.Dest()) != Get(ToMap(t.entries), a.Dest()))
  {
    var s := Run(Initial(writers, readers), es);
    RunFollows(writers, readers, es);
    RunOfSix(s, Overlap(v, a, w, b));
    hide Run, Step;
    OverlapFollows(s, v, a, w, b);
    hide ShardGet, ToMap;
    assert FollowsLogs(s);
  }

  /** The other half: writers of one destination may overlap in any way as long as their writes
      leave the same. Shards and map that agreed before agree again when all are done. */
  lemma SameWritesAgree(writers: nat, readers: nat, es: seq<Event>, more: seq<Event>, d: Id, x: Option<RouteEntry>)
    requires var s := Run(Initial(writers, readers), es);
             AllIdle(s) && Agrees(s, d) && AllIdle(Run(s, more))
    requires forall w, op :: WriteShard(w, op) in more && op.Dest() == d ==> Written(op) == x
    ensures Agrees(Run(Run(Initial(writers, readers), es), more), d)
  {
    hide ShardGet, ToMap, Run, LastWritten, Agrees;
    RunAppend(Initial(writers, readers), es, more);
    AgreeExactlyWhen(writers, readers, es, d);
    AgreeExactlyWhen(writers, readers, es + more, d);
    LogsAfter(Run(Initial(writers, readers), es), more, d, x);
  }

  lemma LogsAfter(s: State, more: seq<Event>, d: Id, x: Option<RouteEntry>)
    requires Shape(s) && LastWritten(s.log, d) == LastWritten(s.mapLog, d) && multiset(s.log) == multiset(s.mapLog)
    requires var t := Run(s, more); multiset(t.log) == multiset(t.mapLog)
    requires forall w, op :: WriteShard(w, op) in more && op.Dest() == d ==> Written(op) == x
    ensures var t := Run(s, more); LastWritten(t.log, d) == LastWritten(t.mapLog, d)
  {
    hide Run, LastWritten, Written;
    RunKeepsSize(s, more);
    AddedByWrites(s, more);
    var t := Run(s, more);
    var m, n := t.log[|s.log|..], t.mapLog[|s.mapLog|..];
    assert t.log == s.log + m && t.mapLog == s.mapLog + n;
    LogsAgreeAgain(s.log, m, s.mapLog, n, d, x);
  }

  lemma AddedByWrites(s: State, es: seq<Event>)
    requires Shape(s) && s.log <= Run(s, es).log
    ensures forall op :: op in Run(s, es).log[|s.log|..] ==> exists w :: WriteShard(w, op) in es
  {
    var m := Run(s, es).log[|s.log|..];
    forall op | op in m
      ensures exists w :: WriteShard(w, op) in es
    {
      var i :| 0 <= i < |m| && m[i] == op;
      LogGrowsByWrites(s, es, |s.log| + i);
    }
  }

  lemma LogsAgreeAgain(a: seq<WriteOp>, m: seq<WriteOp>, b: seq<WriteOp>, n: seq<WriteOp>, d: Id, x: Option<RouteEntry>)
    requires multiset(a) == multiset(b) && multiset(a + m) == multiset(b + n)
    requires LastWritten(a, d) == LastWritten(b, d)
    requires forall op :: op in m && op.Dest() == d ==> Written(op) == x
    ensures LastWritten(a + m, d) == LastWritten(b + n, d)
  {
    SameAdded(a, m, b, n);
    hide LastWritten, Written;
    LastOfMore(a, m, d, x);
    LastOfMore(b, n, d, x);
  }

  lemma {:induction false} RunAppend(s: State, a: seq<Event>, b: seq<Event>)
    requires Shape(s)
    ensures Run(s, a + b) == Run(Run(s, a), b)
    decreases |b|
  {
    if b == [] {
      assert a + b == a;
    } else {
      assert (a + b)[..|a + b| - 1] == a + b[..|b| - 1];
      RunAppend(s, a, b[..|b| - 1]);
    }
  }

  /** Logs that held the same writes, and hold the same writes again, gained the same ones. */
  lemma SameAdded(a: seq<WriteOp>, m: seq<WriteOp>, b: seq<WriteOp>, n: seq<WriteOp>)
    requires multiset(a) == multiset(b) && multiset(a + m) == multiset(b + n)
    ensures forall op :: op in m <==> op in n
  {
    assert multiset(m) == multiset(a + m) - multiset(a) == multiset(n);
    assert forall op :: op in m <==> op in multiset(m);
  }

  /** If the added writes of `d` all leave `x`, so does the log, unless none was added. */
  lemma {:induction false} LastOfMore(log: seq<WriteOp>, more: seq<WriteOp>, d: Id, x: Option<RouteEntry>)
    requires forall op :: op in more && op.Dest() == d ==> Written(op) == x
    ensures LastWritten(log + more, d)
            == if exists op :: op in more && op.Dest() == d then x else LastWritten(log, d)
    decreases |more|
  {
    if more == [] {
      assert log + more == log;
    } else {
      var front, last := more[..|more| - 1], more[|more| - 1];
      assert log + more == (log + front) + [last];
      assert more == front + [last];
      OneMoreWritten(log + front, last, d);
      LastOfMore(log, front, d, x);
    }
  }

  lemma OverlapFollows(s: State, v: nat, a: WriteOp, w: nat, b: WriteOp)
    requires Shape(s) && FollowsLogs(s) && v < |s.writers| && w < |s.writers| && v != w && a.Dest() == b.Dest()
    requires s.writers[v].WriterIdle? && s.writers[w].WriterIdle?
    ensures var es := Overlap(v, a, w, b);
            var t := Step(Step(Step(Step(Step(Step(s, es[0]), es[1]), es[2]), es[3]), es[4]), es[5]);
            && t.writers == s.writers
            && ShardGet(t.shards, a.Dest()) == Written(b)
            && Get(ToMap(t.entries), a.Dest()) == Written(a)
  {
    var s1 := Step(s, WriteShard(v, a));
    ShardWriteFollows(s, v, a);
    var s2 := Step(s1, WriteShard(w, b));
    ShardWriteFollows(s1, w, b);
    var s3 := Step(s2, WriteMap(w));
    MapWriteFollows(s2, w);
    var s4 := Step(s3, WriteMap(v));
    MapWriteFollows(s3, v);
    hide FollowsLogs, ShardWrite, MapWrite;
    assert s4.writers == s.writers[v := WroteMap(a, |s.log|)][w := WroteMap(b, |s.log| + 1)];
    BumpBoth(s4, s.writers, v, w);
    FollowsLast(s4, a, b);
  }

  lemma BumpBoth(s: State, ws: seq<Writer>, v: nat, w: nat)
    requires Shape(s) && v < |ws| == |s.writers| && w < |ws| && v != w
    requires ws[v].WriterIdle? && ws[w].WriterIdle? && s.writers[v].WroteMap? && s.writers[w].WroteMap?
    requires s.writers == ws[v := s.writers[v]][w := s.writers[w]]
    ensures var t := Step(Step(s, Bump(v)), Bump(w));
            t.writers == ws && t.shards == s.shards && t.entries == s.entries
  {
  }

  lemma FollowsLast(s: State, a: WriteOp, b: WriteOp)
    requires FollowsLogs(s) && |s.log| > 0 && |s.mapLog| > 0
    requires s.log[|s.log| - 1] == b && s.mapLog[|s.mapLog| - 1] == a && a.Dest() == b.Dest()
    ensures ShardGet(s.shards, a.Dest()) == Written(b) && Get(ToMap(s.entries), a.Dest()) == Written(a)
  {
    hide ShardGet, ToMap;
  }

  lemma RunOfSix(s: State, es: seq<Event>)
    requires Shape(s) && |es| == 6
    ensures Run(s, es) == Step(Step(Step(Step(Step(Step(s, es[0]), es[1]), es[2]), es[3]), es[4]), es[5])
  {
    assert es[..0] == [] && es[..6] == es;
    RunOneMore(s, es, 0);
    RunOneMore(s, es, 1);
    RunOneMore(s, es, 2);
    RunOneMore(s, es, 3);
    RunOneMore(s, es, 4);
    RunOneMore(s, es, 5);
    hide Step;
  }

  lemma RunOneMore(s: State, es: seq<Event>, n: nat)
    requires Shape(s) && n < |es|
    ensures Run(s, es[..n + 1]) == Step(Run(s, es[..n]), es[n])
  {
    assert es[..n + 1][..n] == es[..n];
  }
}
