/** A descriptor ring of `afxdp/src/rings.rs` between its two users, the socket on the one side and
    the kernel on the other: every load of an index, every copy of a descriptor and every store of
    an index is its own step, in any interleaving, on sequentially consistent memory. */
module RingSteps {
  import opened Bits
  import opened Circular

  const M: nat := TWO_TO_32

  /** Where a push of `batch` stands: `n` descriptors are to be stored, `k` of them are. */
  datatype Producer =
    | ProducerIdle
    | ProdLoaded(batch: seq<u64>, prod: u32)
    | Storing(batch: seq<u64>, prod: u32, n: nat, k: nat)

  /** Where a pop of at most `max` stands. `prodAt` records how many had been pushed when the
      producer index was loaded. */
  datatype Consumer =
    | ConsumerIdle
    | ProdSeen(max: nat, prod: u32, prodAt: nat)
    | Taking(cons: u32, n: nat, out: seq<u64>)

  /** Shared memory, the two program counters, and what was published on either side. */
  datatype State = State(
    desc: seq<u64>, prod: u32, cons: u32,
    producer: Producer, consumer: Consumer,
    pushed: seq<u64>, popped: seq<u64>)

  datatype Event =
    | PushLoadProd(batch: seq<u64>) | PushLoadCons | PushCopyOne | PushStoreProd
    | PopLoadProd(max: nat) | PopLoadCons | PopCopyOne | PopStoreCons

  /** Where the `k`-th descriptor of a two-chunk copy goes, or comes from. */
  function ChunkIndex(idx: u32, k: nat, cap: nat): (i: nat)
    requires 0 < cap
  {
    var start := And(idx, cap - 1);
    if start + k < cap then start + k else start + k - cap
  }

  // Copies stay inside the array (`ChunkIndexIs`); outside, where no run gets, a store is ignored
  // and a load reads zero.
  function StoreAt(desc: seq<u64>, i: nat, v: u64): (r: seq<u64>)
    ensures |r| == |desc|
  {
    if i < |desc| then desc[i := v] else desc
  }

  function LoadAt(desc: seq<u64>, i: nat): u64 { if i < |desc| then desc[i] else 0 }

  /** `capacity.saturating_sub(prod.wrapping_sub(cons))`. */
  function FreeSlots(prod: u32, cons: u32, cap: nat): nat {
    var used := WrapSub(prod, cons, M);
    if cap >= used then cap - used else 0
  }

  /** One step; an event that does not fit the program counters does nothing. */
  function Step(s: State, e: Event): (t: State)
    requires |s.desc| > 0
    ensures |t.desc| == |s.desc|
  {
    match e
    case PushLoadProd(batch) =>
      if s.producer.ProducerIdle? then s.(producer := ProdLoaded(batch, s.prod)) else s
    case PushLoadCons =>
      if s.producer.ProdLoaded? then
        var free := FreeSlots(s.producer.prod, s.cons, |s.desc|);
        if free == 0 then s.(producer := ProducerIdle)
        else s.(producer := Storing(s.producer.batch, s.producer.prod, Min(free, |s.producer.batch|), 0))
      else s
    case PushCopyOne =>
      if s.producer.Storing? && s.producer.k < s.producer.n && s.producer.k < |s.producer.batch| then
        var p := s.producer;
        s.(desc := StoreAt(s.desc, ChunkIndex(p.prod, p.k, |s.desc|), p.batch[p.k]), producer := p.(k := p.k + 1))
      else s
    case PushStoreProd =>
      if s.producer.Storing? && s.producer.k == s.producer.n <= |s.producer.batch| then
        s.(prod := WrapAdd(s.producer.prod, s.producer.n, M), producer := ProducerIdle,
           pushed := s.pushed + s.producer.batch[..s.producer.n])
      else s
    case PopLoadProd(max) =>
      if s.consumer.ConsumerIdle? then s.(consumer := ProdSeen(max, s.prod, |s.pushed|)) else s
    case PopLoadCons =>
      if s.consumer.ProdSeen? then
        var avail := WrapSub(s.consumer.prod, s.cons, M);
        if avail == 0 then s.(consumer := ConsumerIdle)
        else s.(consumer := Taking(s.cons, Min(avail, s.consumer.max), []))
      else s
    case PopCopyOne =>
      if s.consumer.Taking? && |s.consumer.out| < s.consumer.n then
        var c := s.consumer;
        s.(consumer := c.(out := c.out + [LoadAt(s.desc, ChunkIndex(c.cons, |c.out|, |s.desc|))]))
      else s
    case PopStoreCons =>
      if s.consumer.Taking? && |s.consumer.out| == s.consumer.n then
        s.(cons := WrapAdd(s.consumer.cons, s.consumer.n, M), consumer := ConsumerIdle,
           popped := s.popped + s.consumer.out)
      else s
  }

  function Run(s: State, es: seq<Event>): (r: State)
    requires |s.desc| > 0
    ensures |r.desc| == |s.desc|
    decreases |es|
  {
    if es == [] then s else Step(Run(s, es[..|es| - 1]), es[|es| - 1])
  }

  /** An empty ring whose indices stand anywhere. */
  function Initial(cap: nat, start: u32): State {
    State(seq(cap, _ => 0), start, start, ProducerIdle, ConsumerIdle, [], [])
  }

  // ---------- The invariant of every run ----------

  /** What is published and not yet taken. */
  function Queue(s: State): seq<u64>
    requires |s.popped| <= |s.pushed|
  {
    s.pushed[|s.popped|..]
  }

  /** The index that stands for a count. */
  function Index(start: u32, count: nat): u32 { (start + count) % M }

  /** The items are in the slots from the one of count `from` on. */
  ghost predicate Holds(desc: seq<u64>, start: u32, from: nat, items: seq<u64>)
    requires |desc| > 0
  {
    forall i :: 0 <= i < |items| ==> desc[Slot(start + from, i, |desc|)] == items[i]
  }

  ghost predicate QueueOk(s: State, start: u32) {
    && Geometry(|s.desc|, M)
    && s.popped <= s.pushed && |Queue(s)| <= |s.desc|
    && s.prod == Index(start, |s.pushed|)
    && s.cons == Index(start, |s.popped|)
    && |s.desc| > 0 && Holds(s.desc, start, |s.popped|, Queue(s))
  }

  ghost predicate ProducerOk(s: State, start: u32)
    requires |s.desc| > 0 && |s.popped| <= |s.pushed|
  {
    match s.producer
    case ProducerIdle => true
    case ProdLoaded(_, p) => p == s.prod
    case Storing(batch, p, n, k) =>
      && p == s.prod && k <= n <= |batch| && |Queue(s)| + n <= |s.desc|
      && Holds(s.desc, start, |s.pushed|, batch[..k])
  }

  ghost predicate ConsumerOk(s: State, start: u32)
    requires |s.popped| <= |s.pushed|
  {
    match s.consumer
    case ConsumerIdle => true
    case ProdSeen(_, p, at) => p == Index(start, at) && |s.popped| <= at <= |s.pushed|
    case Taking(c, n, out) => c == s.cons && |out| <= n <= |Queue(s)| && out == Queue(s)[..|out|]
  }

  ghost predicate Inv(s: State, start: u32) { QueueOk(s, start) && ProducerOk(s, start) && ConsumerOk(s, start) }

  // ---------- Indices and slots ----------

  /** The chunk index counted from a wrapped index is the slot of the count. */
  lemma ChunkIndexIs(start: u32, count: nat, k: nat, cap: nat)
    requires Geometry(cap, M) && k < cap
    ensures ChunkIndex(Index(start, count), k, cap) == Slot(start + count, k, cap) < cap
  {
    var idx := Index(start, count);
    MaskIsMod(idx, cap);
    ChunkSlot(idx, k, cap);
    SlotAfterWrap(idx, start, count, k, cap, M);
    hide And, Geometry;
  }

  lemma SlotsContinue(start: u32, from: nat, n: nat, i: nat, cap: nat)
    requires cap > 0
    ensures Slot(start + (from + n), i, cap) == Slot(start + from, n + i, cap)
  {
  }

  /** The indices are as far apart as the counts they stand for. */
  lemma DistanceIs(start: u32, a: nat, b: nat)
    requires b <= a < b + M
    ensures WrapSub(Index(start, a), Index(start, b), M) == a - b
  {
    DistanceOfCounts(start + a, start + b, M);
  }

  lemma FreeSlotsAre(start: u32, a: nat, b: nat, cap: nat)
    requires b <= a <= b + cap && cap < M
    ensures FreeSlots(Index(start, a), Index(start, b), cap) == cap - (a - b)
  {
    DistanceIs(start, a, b);
  }

  lemma IndexAdvances(start: u32, a: nat, n: nat)
    ensures WrapAdd(Index(start, a), n, M) == Index(start, a + n)
  {
    ModAdd(start + a, n, M);
  }

  lemma HoldsMore(desc: seq<u64>, start: u32, from: nat, a: seq<u64>, b: seq<u64>)
    requires |desc| > 0 && Holds(desc, start, from, a) && Holds(desc, start, from + |a|, b)
    ensures Holds(desc, start, from, a + b)
  {
    forall i | 0 <= i < |a + b|
      ensures desc[Slot(start + from, i, |desc|)] == (a + b)[i]
    {
      if i >= |a| {
        SlotsContinue(start, from, |a|, i - |a|, |desc|);
      }
    }
  }

  lemma HoldsFewer(desc: seq<u64>, start: u32, from: nat, a: seq<u64>, n: nat)
    requires |desc| > 0 && Holds(desc, start, from, a) && n <= |a|
    ensures Holds(desc, start, from + n, a[n..])
  {
    forall i | 0 <= i < |a| - n
      ensures desc[Slot(start + (from + n), i, |desc|)] == a[n..][i]
    {
      SlotsContinue(start, from, n, i, |desc|);
    }
  }

  /** Storing less than a full turn further on disturbs nothing. */
  lemma HoldsAfterStore(desc: seq<u64>, start: u32, from: nat, items: seq<u64>, k: nat, v: u64)
    requires |desc| > 0 && Holds(desc, start, from, items) && |items| <= k < |desc|
    ensures Holds(desc[Slot(start + from, k, |desc|) := v], start, from, items)
  {
    var after := desc[Slot(start + from, k, |desc|) := v];
    forall i | 0 <= i < |items|
      ensures after[Slot(start + from, i, |desc|)] == items[i]
    {
      DistinctSlots(start + from, i, k, |desc|);
    }
  }

  lemma HoldsOne(desc: seq<u64>, start: u32, from: nat, v: u64)
    requires |desc| > 0
    ensures Holds(desc[Slot(start + from, 0, |desc|) := v], start, from, [v])
  {
  }

  /** A copy into the slot after the queue and after what was copied before. */
  lemma CopyHolds(desc: seq<u64>, start: u32, from: nat, queue: seq<u64>, batch: seq<u64>, k: nat)
    requires |desc| > 0 && k < |batch| && |queue| + k < |desc|
    requires Holds(desc, start, from, queue) && Holds(desc, start, from + |queue|, batch[..k])
    ensures var after := desc[Slot(start + (from + |queue|), k, |desc|) := batch[k]];
            Holds(after, start, from, queue) && Holds(after, start, from + |queue|, batch[..k + 1])
  {
    var count := from + |queue|;
    var at := Slot(start + count, k, |desc|);
    SlotsContinue(start, from, |queue|, k, |desc|);
    HoldsAfterStore(desc, start, from, queue, |queue| + k, batch[k]);
    HoldsAfterStore(desc, start, count, batch[..k], k, batch[k]);
    SlotsContinue(start, count, k, 0, |desc|);
    HoldsOne(desc, start, count + k, batch[k]);
    hide Holds, Slot;
    HoldsMore(desc[at := batch[k]], start, count, batch[..k], [batch[k]]);
    assert batch[..k + 1] == batch[..k] + [batch[k]];
  }

  // ---------- Every step keeps it ----------

  lemma PushLoadKeepsInv(s: State, start: u32)
    requires Inv(s, start) && s.producer.ProdLoaded?
    ensures FreeSlots(s.producer.prod, s.cons, |s.desc|) == |s.desc| - |Queue(s)|
    ensures Inv(Step(s, PushLoadCons), start)
  {
    FreeSlotsAre(start, |s.pushed|, |s.popped|, |s.desc|);
    NothingHeld(s.desc, start, |s.pushed|);
    hide Holds, Index, Geometry, FreeSlots;
    if s.producer.ProdLoaded? {
      assert s.producer.batch[..0] == [];
    }
  }

  lemma NothingHeld(desc: seq<u64>, start: u32, from: nat)
    requires |desc| > 0
    ensures Holds(desc, start, from, [])
  {
  }

  lemma PopLoadKeepsInv(s: State, start: u32)
    requires Inv(s, start) && s.consumer.ProdSeen?
    ensures WrapSub(s.consumer.prod, s.cons, M) == s.consumer.prodAt - |s.popped|
    ensures Inv(Step(s, PopLoadCons), start)
  {
    DistanceIs(start, s.consumer.prodAt, |s.popped|);
    hide Holds, Index, Geometry, WrapSub;
    assert Queue(s)[..0] == [];
  }

  lemma PushCopyKeepsInv(s: State, start: u32)
    requires Inv(s, start) && s.producer.Storing? && s.producer.k < s.producer.n
    ensures Inv(Step(s, PushCopyOne), start)
  {
    hide Holds, Index, Geometry, ChunkIndex, Slot;
    var p := s.producer;
    ChunkIndexIs(start, |s.pushed|, p.k, |s.desc|);
    var at := Slot(start + |s.pushed|, p.k, |s.desc|);
    assert Step(s, PushCopyOne) == s.(desc := s.desc[at := p.batch[p.k]], producer := p.(k := p.k + 1));
    hide Step;
    CopyHolds(s.desc, start, |s.popped|, Queue(s), p.batch, p.k);
  }

  lemma PushStoreKeepsInv(s: State, start: u32)
    requires Inv(s, start) && s.producer.Storing? && s.producer.k == s.producer.n
    ensures Inv(Step(s, PushStoreProd), start)
    ensures Queue(Step(s, PushStoreProd)) == Queue(s) + s.producer.batch[..s.producer.n]
  {
    hide Holds, Index, Geometry, WrapAdd;
    var n := s.producer.n;
    var added, next := s.producer.batch[..n], WrapAdd(s.prod, n, M);
    IndexAdvances(start, |s.pushed|, n);
    assert Step(s, PushStoreProd) == s.(prod := next, producer := ProducerIdle, pushed := s.pushed + added);
    hide Step;
    HoldsMore(s.desc, start, |s.popped|, Queue(s), added);
    AddedAtBack(s.pushed, s.popped, added);
  }

  lemma AddedAtBack(pushed: seq<u64>, popped: seq<u64>, added: seq<u64>)
    requires popped <= pushed
    ensures popped <= pushed + added && (pushed + added)[|popped|..] == pushed[|popped|..] + added
  {
  }

  lemma PopCopyKeepsInv(s: State, start: u32)
    requires Inv(s, start) && s.consumer.Taking? && |s.consumer.out| < s.consumer.n
    ensures Inv(Step(s, PopCopyOne), start)
  {
    var k := |s.consumer.out|;
    assert s.desc[Slot(start + |s.popped|, k, |s.desc|)] == Queue(s)[k];
    hide Holds, Index, Geometry, ChunkIndex, Slot;
    ChunkIndexIs(start, |s.popped|, k, |s.desc|);
    assert Step(s, PopCopyOne) == s.(consumer := s.consumer.(out := s.consumer.out + [Queue(s)[k]]));
    hide Step;
    assert Queue(s)[..k + 1] == Queue(s)[..k] + [Queue(s)[k]];
  }

  lemma PopStoreKeepsInv(s: State, start: u32)
    requires Inv(s, start) && s.consumer.Taking? && |s.consumer.out| == s.consumer.n
    ensures Inv(Step(s, PopStoreCons), start)
    ensures Queue(s) == s.consumer.out + Queue(Step(s, PopStoreCons))
  {
    var n, t := s.consumer.n, Step(s, PopStoreCons);
    IndexAdvances(start, |s.popped|, n);
    hide Holds, Index, Geometry, WrapAdd;
    assert t == s.(cons := WrapAdd(s.cons, n, M), consumer := ConsumerIdle, popped := s.popped + s.consumer.out);
    hide Step;
    HoldsFewer(s.desc, start, |s.popped|, Queue(s), n);
    TakenFromFront(s.pushed, s.popped, Queue(s), n);
    assert t.popped == s.popped + Queue(s)[..n];
  }

  lemma TakenFromFront(pushed: seq<u64>, popped: seq<u64>, queue: seq<u64>, n: nat)
    requires popped <= pushed && queue == pushed[|popped|..] && n <= |queue|
    ensures popped + queue[..n] <= pushed && pushed[|popped| + n..] == queue[n..] && queue == queue[..n] + queue[n..]
  {
  }

  lemma FirstLoadKeepsInv(s: State, e: Event, start: u32)
    requires Inv(s, start) && (e.PushLoadProd? || e.PopLoadProd?)
    ensures Inv(Step(s, e), start)
  {
    hide Geometry, Holds, Index;
  }

  /** A state that fits no program counter stays as it is. */
  predicate Fires(s: State, e: Event) {
    match e
    case PushLoadProd(_) => s.producer.ProducerIdle?
    case PushLoadCons => s.producer.ProdLoaded?
    case PushCopyOne => s.producer.Storing? && s.producer.k < s.producer.n
    case PushStoreProd => s.producer.Storing? && s.producer.k == s.producer.n
    case PopLoadProd(_) => s.consumer.ConsumerIdle?
    case PopLoadCons => s.consumer.ProdSeen?
    case PopCopyOne => s.consumer.Taking? && |s.consumer.out| < s.consumer.n
    case PopStoreCons => s.consumer.Taking? && |s.consumer.out| == s.consumer.n
  }

  lemma QuietStep(s: State, e: Event)
    requires |s.desc| > 0 && !Fires(s, e)
    ensures Step(s, e) == s
  {
  }

  /** No step of either side, in any order, breaks the invariant. */
  lemma StepKeepsInv(s: State, e: Event, start: u32)
    requires Inv(s, start)
    ensures Inv(Step(s, e), start)
  {
    assert |s.desc| > 0;
    hide Inv, Step;
    if !Fires(s, e) {
      QuietStep(s, e);
      return;
    }
    match e
    case PushLoadCons => PushLoadKeepsInv(s, start);
    case PushCopyOne => PushCopyKeepsInv(s, start);
    case PushStoreProd => PushStoreKeepsInv(s, start);
    case PopLoadCons => PopLoadKeepsInv(s, start);
    case PopCopyOne => PopCopyKeepsInv(s, start);
    case PopStoreCons => PopStoreKeepsInv(s, start);
    case _ => FirstLoadKeepsInv(s, e, start);
  }

  lemma {:induction false} RunKeepsInv(cap: nat, start: u32, es: seq<Event>)
    requires Geometry(cap, M)
    ensures Inv(Run(Initial(cap, start), es), start)
    decreases |es|
  {
    if es == [] {
      ModUnique(start, M, 0, start);
    } else {
      hide Inv, Step;
      RunKeepsInv(cap, start, es[..|es| - 1]);
      StepKeepsInv(Run(Initial(cap, start), es[..|es| - 1]), es[|es| - 1], start);
    }
  }

  // ---------- The queue of every run ----------

  /** In every reachable state what was popped is what was pushed, in order, without loss or
      duplication, and no more than the slots is outstanding, wherever the indices started. */
  lemma NothingLostOrReordered(cap: nat, start: u32, es: seq<Event>)
    requires Geometry(cap, M)
    ensures var s := Run(Initial(cap, start), es);
            |s.popped| <= |s.pushed| && s.pushed == s.popped + Queue(s) && |Queue(s)| <= cap
  {
    RunKeepsInv(cap, start, es);
    hide Step, Holds, Index;
  }

  /** What a step does to the queue: it publishes the first `n` of a batch, takes the `n` oldest,
      or is invisible; what is to be moved is what the loads saw. */
  ghost predicate Refines(s: State, e: Event, t: State) {
    && |s.popped| <= |s.pushed| && |t.popped| <= |t.pushed| && |Queue(s)| <= |s.desc| && 0 < |s.desc|
    && (Fires(s, e) ==>
          match e
          case PushLoadProd(batch) => t == s.(producer := ProdLoaded(batch, s.prod))
          case PushCopyOne =>
            var p := s.producer;
            && p.k < |p.batch| && t.producer == p.(k := p.k + 1)
            && var at := ChunkIndex(s.prod, p.k, |s.desc|);
               at < |s.desc| && t == s.(desc := s.desc[at := p.batch[p.k]], producer := t.producer)
          case PopCopyOne =>
            && |s.consumer.out| < |Queue(s)|
            && t == s.(consumer := s.consumer.(out := s.consumer.out + [Queue(s)[|s.consumer.out|]]))
          case PushLoadCons =>
            var free := |s.desc| - |Queue(s)|;
            t.producer == if free == 0 then ProducerIdle
                          else Storing(s.producer.batch, s.prod, Min(free, |s.producer.batch|), 0)
          case PopLoadProd(max) => t.consumer == ProdSeen(max, s.prod, |s.popped| + |Queue(s)|)
          case PopLoadCons =>
            && |s.popped| <= s.consumer.prodAt <= |s.popped| + |Queue(s)|
            && var avail := s.consumer.prodAt - |s.popped|;
               t.consumer == if avail == 0 then ConsumerIdle else Taking(s.cons, Min(avail, s.consumer.max), [])
          case PushStoreProd =>
            s.producer.n <= |s.producer.batch| && Queue(t) == Queue(s) + s.producer.batch[..s.producer.n]
          case PopStoreCons => Queue(s) == s.consumer.out + Queue(t))
    && (!(Fires(s, e) && (e.PushStoreProd? || e.PopStoreCons?)) ==> Queue(t) == Queue(s))
  }

  lemma StepRefines(s: State, e: Event, start: u32)
    requires Inv(s, start)
    ensures Refines(s, e, Step(s, e))
  {
    assert |s.desc| > 0 && |s.popped| <= |s.pushed| && |Queue(s)| <= |s.desc|;
    if !Fires(s, e) {
      QuietStep(s, e);
      hide Inv, Step;
    } else if e == PushCopyOne || e == PopCopyOne {
      CopyStepRefines(s, e, start);
    } else if e == PushStoreProd {
      PushStoreKeepsInv(s, start);
      hide Inv, Holds, Index, Geometry, WrapAdd;
    } else if e == PopStoreCons {
      PopStoreKeepsInv(s, start);
      hide Inv, Holds, Index, Geometry, WrapAdd;
    } else {
      if e == PushLoadCons {
        PushLoadKeepsInv(s, start);
      } else if e == PopLoadCons {
        PopLoadKeepsInv(s, start);
      }
      hide Holds, Index, Geometry, FreeSlots, WrapSub, ChunkIndex;
    }
  }

  lemma CopyStepRefines(s: State, e: Event, start: u32)
    requires Inv(s, start) && (e == PushCopyOne || e == PopCopyOne) && Fires(s, e)
    ensures Refines(s, e, Step(s, e))
  {
    if e == PushCopyOne {
      ChunkIndexIs(start, |s.pushed|, s.producer.k, |s.desc|);
      hide Holds, Index, Geometry, ChunkIndex, Slot;
    } else {
      var k := |s.consumer.out|;
      assert s.desc[Slot(start + |s.popped|, k, |s.desc|)] == Queue(s)[k];
      ChunkIndexIs(start, |s.popped|, k, |s.desc|);
      hide Holds, Index, Geometry, ChunkIndex, Slot;
    }
  }

  /** From every reachable state, whatever the other side is in the middle of, each step refines
      one of the queue. */
  lemma StepRefinesQueue(cap: nat, start: u32, es: seq<Event>, e: Event)
    requires Geometry(cap, M)
    ensures var s := Run(Initial(cap, start), es); Refines(s, e, Step(s, e))
  {
    hide Inv, Step, Refines, Run;
    RunKeepsInv(cap, start, es);
    StepRefines(Run(Initial(cap, start), es), e, start);
  }

  // ---------- Whole operations ----------

  predicate OfProducer(e: Event) { e.PushLoadProd? || e.PushLoadCons? || e.PushCopyOne? || e.PushStoreProd? }

  /** The steps of one side among all steps. */
  function Side(es: seq<Event>, producer: bool): seq<Event>
    decreases |es|
  {
    if es == [] then []
    else
      var last := es[|es| - 1];
      Side(es[..|es| - 1], producer) + (if OfProducer(last) == producer then [last] else [])
  }

  /** The steps of a whole push: both loads, the copies, and the store. Copies that the room does
      not allow find nothing to do. */
  function PushOps(batch: seq<u64>): (es: seq<Event>)
    ensures |es| == |batch| + 3
  {
    [PushLoadProd(batch), PushLoadCons] + seq(|batch|, _ => PushCopyOne) + [PushStoreProd]
  }

  function PopOps(max: nat, copies: nat): (es: seq<Event>)
    ensures |es| == copies + 3
  {
    [PopLoadProd(max), PopLoadCons] + seq(copies, _ => PopCopyOne) + [PopStoreCons]
  }

  /** How far a push of `batch` is after `j` of its steps, if `free` slots were free at its second
      load; `base` is what had been published before. */
  ghost predicate PushAt(s: State, batch: seq<u64>, j: nat, base: seq<u64>, free: nat) {
    var n := Min(free, |batch|);
    if j == 0 then s.producer == ProducerIdle && s.pushed == base
    else if j == 1 then s.producer.ProdLoaded? && s.producer.batch == batch && s.pushed == base
    else if free == 0 then s.producer == ProducerIdle && s.pushed == base
    else if j < |batch| + 3 then
      && s.producer.Storing? && s.producer.batch == batch && s.pushed == base
      && s.producer.n == n && s.producer.k == Min(n, j - 2)
    else s.producer == ProducerIdle && s.pushed == base + batch[..n]
  }

  lemma PushAdvances(s: State, start: u32, batch: seq<u64>, j: nat, base: seq<u64>, free: nat)
    requires Inv(s, start) && j < |batch| + 3 && PushAt(s, batch, j, base, free)
    requires j == 1 ==> |s.popped| <= |s.pushed| && free == |s.desc| - |Queue(s)|
    ensures PushAt(Step(s, PushOps(batch)[j]), batch, j + 1, base, free)
  {
    var e := PushOps(batch)[j];
    InvSizes(s, start);
    hide Inv, Step;
    if Fires(s, e) {
      PushStepIs(s, start, e);
    } else {
      QuietStep(s, e);
    }
  }

  /** What a step of the pushing side does to that side. */
  lemma PushStepIs(s: State, start: u32, e: Event)
    requires Inv(s, start) && OfProducer(e) && Fires(s, e)
    ensures |s.popped| <= |s.pushed| && |Queue(s)| <= |s.desc| && |s.desc| > 0
    ensures var t := Step(s, e);
            && (e.PushLoadProd? ==> t.producer == ProdLoaded(e.batch, s.prod))
            && (e.PushLoadCons? ==>
                  var free := |s.desc| - |Queue(s)|;
                  t.producer == if free == 0 then ProducerIdle
                                else Storing(s.producer.batch, s.prod, Min(free, |s.producer.batch|), 0))
            && (e.PushCopyOne? ==> t.producer == s.producer.(k := s.producer.k + 1))
            && (e.PushStoreProd? ==>
                  && s.producer.n <= |s.producer.batch|
                  && t.producer == ProducerIdle && t.pushed == s.pushed + s.producer.batch[..s.producer.n])
            && (!e.PushStoreProd? ==> t.pushed == s.pushed)
  {
    InvSizes(s, start);
    StepRefines(s, e, start);
    StoreIsExact(s, start, e);
    hide Inv, Step, ChunkIndex;
  }

  lemma StoreIsExact(s: State, start: u32, e: Event)
    requires Inv(s, start) && OfProducer(e) && Fires(s, e)
    ensures var t := Step(s, e);
            if e.PushStoreProd? then
              && s.producer.n <= |s.producer.batch|
              && t.producer == ProducerIdle && t.pushed == s.pushed + s.producer.batch[..s.producer.n]
            else t.pushed == s.pushed
  {
    hide Holds, Index, Geometry, FreeSlots, ChunkIndex;
  }

  lemma OtherSideLeaves(s: State, e: Event)
    requires |s.desc| > 0
    ensures !OfProducer(e) ==> Step(s, e).producer == s.producer && Step(s, e).pushed == s.pushed
    ensures OfProducer(e) ==>
              Step(s, e).consumer == s.consumer && Step(s, e).popped == s.popped && s.pushed <= Step(s, e).pushed
  {
    hide ChunkIndex, FreeSlots;
  }

  lemma {:induction false} RunFromKeepsInv(s: State, es: seq<Event>, start: u32)
    requires Inv(s, start) && |s.desc| > 0
    ensures Inv(Run(s, es), start)
    decreases |es|
  {
    hide Inv, Step;
    if es != [] {
      RunFromKeepsInv(s, es[..|es| - 1], start);
      StepKeepsInv(Run(s, es[..|es| - 1]), es[|es| - 1], start);
    }
  }

  lemma InvSizes(s: State, start: u32)
    requires Inv(s, start)
    ensures |s.desc| > 0 && s.popped <= s.pushed && |Queue(s)| <= |s.desc|
  {
  }

  /** The room at the second load of a push, and where in the run that load is. */
  ghost predicate RoomAt(s: State, es: seq<Event>, at: nat, free: nat, batch: seq<u64>)
    requires |s.desc| > 0
  {
    && at < |es| && es[at] == PushLoadCons && Side(es[..at], true) == [PushLoadProd(batch)]
    && var u := Run(s, es[..at]);
       |u.popped| <= |u.pushed| <= |u.popped| + |s.desc| && free == |s.desc| - |Queue(u)|
  }

  lemma {:induction false} PushTracks(s: State, start: u32, batch: seq<u64>, es: seq<Event>, j: nat)
    returns (at: nat, free: nat)
    requires Inv(s, start) && |s.desc| > 0 && s.producer == ProducerIdle
    requires j <= |batch| + 3 && Side(es, true) == PushOps(batch)[..j]
    ensures PushAt(Run(s, es), batch, j, s.pushed, free)
    ensures j >= 2 ==> RoomAt(s, es, at, free, batch)
    decreases |es|
  {
    if es == [] {
      at, free := 0, 0;
      return;
    }
    var front, last := es[..|es| - 1], es[|es| - 1];
    var u := Run(s, front);
    RunFromKeepsInv(s, front, start);
    InvSizes(u, start);
    OtherSideLeaves(u, last);
    hide Inv, Step, PushAt, RoomAt;
    if OfProducer(last) {
      PrefixStep(Side(front, true), last, PushOps(batch), j);
      at, free := PushTracks(s, start, batch, front, j - 1);
      if j == 2 {
        at, free := |front|, |s.desc| - |Queue(u)|;
        SecondOp(u, batch, s.pushed, free);
        RoomHere(s, es, free, batch);
      } else {
        RoomAtFront(s, es, at, free, batch);
      }
      PushAdvances(u, start, batch, j - 1, s.pushed, free);
    } else {
      at, free := PushTracks(s, start, batch, front, j);
      SamePushAt(u, Step(u, last), batch, j, s.pushed, free);
      RoomAtFront(s, es, at, free, batch);
    }
  }

  lemma PrefixStep(front: seq<Event>, last: Event, ops: seq<Event>, j: nat)
    requires j <= |ops| && front + [last] == ops[..j]
    ensures j > 0 && front == ops[..j - 1] && last == ops[j - 1]
  {
    assert (front + [last])[..|front|] == front;
  }

  lemma SecondOp(u: State, batch: seq<u64>, base: seq<u64>, free: nat)
    ensures forall any :: PushAt(u, batch, 1, base, any) ==> PushAt(u, batch, 1, base, free)
  {
  }

  lemma SamePushAt(u: State, t: State, batch: seq<u64>, j: nat, base: seq<u64>, free: nat)
    requires PushAt(u, batch, j, base, free) && t.producer == u.producer && t.pushed == u.pushed
    ensures PushAt(t, batch, j, base, free)
  {
  }

  lemma RoomHere(s: State, es: seq<Event>, free: nat, batch: seq<u64>)
    requires |s.desc| > 0 && es != [] && es[|es| - 1] == PushLoadCons
    requires Side(es[..|es| - 1], true) == PushOps(batch)[..1]
    requires var u := Run(s, es[..|es| - 1]);
             |u.popped| <= |u.pushed| <= |u.popped| + |s.desc| && free == |s.desc| - |Queue(u)|
    ensures RoomAt(s, es, |es| - 1, free, batch)
  {
    hide Run, Side;
    assert PushOps(batch)[..1] == [PushLoadProd(batch)];
  }

  lemma RoomAtFront(s: State, es: seq<Event>, at: nat, free: nat, batch: seq<u64>)
    requires |s.desc| > 0 && es != []
    ensures RoomAt(s, es[..|es| - 1], at, free, batch) ==> RoomAt(s, es, at, free, batch)
  {
    if at < |es| - 1 {
      assert es[..|es| - 1][..at] == es[..at];
    }
  }

  /** A whole push, with any steps of the popping side between its own: it ends idle and has
      published exactly the first min(free, n) of its batch, `free` being the room at its second
      load, which is at position `at` of the run. */
  lemma WholePush(cap: nat, start: u32, before: seq<Event>, batch: seq<u64>, es: seq<Event>) returns (at: nat)
    requires Geometry(cap, M) && cap > 0 && Side(es, true) == PushOps(batch)
    requires Run(Initial(cap, start), before).producer == ProducerIdle
    ensures at < |es| && es[at] == PushLoadCons && Side(es[..at], true) == [PushLoadProd(batch)]
    ensures var s := Run(Initial(cap, start), before);
            var u, t := Run(s, es[..at]), Run(s, es);
            && |u.popped| <= |u.pushed| <= |u.popped| + cap
            && t.producer == ProducerIdle
            && t.pushed == s.pushed + batch[..Min(cap - |Queue(u)|, |batch|)]
  {
    hide Inv, Step, Run, Side, PushAt;
    RunKeepsInv(cap, start, before);
    var s := Run(Initial(cap, start), before);
    assert PushOps(batch)[..|batch| + 3] == PushOps(batch);
    hide PushOps;
    var free;
    at, free := PushTracks(s, start, batch, es, |batch| + 3);
    PushDone(Run(s, es), batch, s.pushed, free);
  }

  lemma PushDone(t: State, batch: seq<u64>, base: seq<u64>, free: nat)
    requires PushAt(t, batch, |batch| + 3, base, free)
    ensures t.producer == ProducerIdle && t.pushed == base + batch[..Min(free, |batch|)]
  {
    assert batch[..0] == [] && base + [] == base;
  }

  /** How far a pop of at most `max` is after `j` of its steps, if `avail` were unread at its first
      load; `base` is what had been taken before. */
  ghost predicate PopAt(s: State, max: nat, copies: nat, j: nat, base: seq<u64>, avail: nat) {
    var n := Min(avail, max);
    if j == 0 then s.consumer == ConsumerIdle && s.popped == base
    else if j == 1 then
      s.consumer.ProdSeen? && s.consumer.max == max && s.consumer.prodAt == |base| + avail && s.popped == base
    else if avail == 0 then s.consumer == ConsumerIdle && s.popped == base
    else if j < copies + 3 then
      s.consumer.Taking? && s.consumer.n == n && |s.consumer.out| == Min(n, j - 2) && s.popped == base
    else s.consumer == ConsumerIdle && |s.popped| == |base| + n
  }

  lemma PopAdvances(s: State, start: u32, max: nat, copies: nat, j: nat, base: seq<u64>, avail: nat)
    requires Inv(s, start) && j < copies + 3 && PopAt(s, max, copies, j, base, avail) && Min(avail, max) <= copies
    requires j == 0 ==> |s.popped| <= |s.pushed| && avail == |Queue(s)|
    ensures PopAt(Step(s, PopOps(max, copies)[j]), max, copies, j + 1, base, avail)
  {
    var e := PopOps(max, copies)[j];
    InvSizes(s, start);
    hide Inv, Step;
    if Fires(s, e) {
      PopStepIs(s, start, e);
    } else {
      QuietStep(s, e);
    }
  }

  /** What a step of the popping side does to that side. */
  lemma PopStepIs(s: State, start: u32, e: Event)
    requires Inv(s, start) && !OfProducer(e) && Fires(s, e)
    ensures |s.popped| <= |s.pushed| && |s.desc| > 0
    ensures var t := Step(s, e);
            && (e.PopLoadProd? ==> t.consumer == ProdSeen(e.max, s.prod, |s.popped| + |Queue(s)|))
            && (e.PopLoadCons? ==>
                  && |s.popped| <= s.consumer.prodAt
                  && var avail := s.consumer.prodAt - |s.popped|;
                     t.consumer == if avail == 0 then ConsumerIdle else Taking(s.cons, Min(avail, s.consumer.max), []))
            && (e.PopCopyOne? ==>
                  t.consumer.Taking? && t.consumer.n == s.consumer.n && |t.consumer.out| == |s.consumer.out| + 1)
            && (e.PopStoreCons? ==> t.consumer == ConsumerIdle && t.popped == s.popped + s.consumer.out)
            && (!e.PopStoreCons? ==> t.popped == s.popped)
  {
    InvSizes(s, start);
    StepRefines(s, e, start);
    TakeIsExact(s, start, e);
    hide Inv, Step, ChunkIndex;
  }

  lemma TakeIsExact(s: State, start: u32, e: Event)
    requires Inv(s, start) && !OfProducer(e) && Fires(s, e)
    ensures var t := Step(s, e);
            if e.PopStoreCons? then t.consumer == ConsumerIdle && t.popped == s.popped + s.consumer.out
            else t.popped == s.popped
  {
    hide Holds, Index, Geometry, FreeSlots, ChunkIndex, WrapSub;
  }

  /** What is unread at the first load of a pop, and where in the run that load is. */
  ghost predicate UnreadAt(s: State, es: seq<Event>, at: nat, avail: nat, max: nat)
    requires |s.desc| > 0
  {
    && at < |es| && es[at] == PopLoadProd(max) && Side(es[..at], false) == []
    && var u := Run(s, es[..at]);
       && u.popped == s.popped <= u.pushed
       && avail == |Queue(u)| <= |s.desc|
  }

  lemma {:induction false} PopTracks(s: State, start: u32, max: nat, copies: nat, es: seq<Event>, j: nat)
    returns (at: nat, avail: nat)
    requires Inv(s, start) && |s.desc| > 0 && s.consumer == ConsumerIdle && Min(|s.desc|, max) <= copies
    requires j <= copies + 3 && Side(es, false) == PopOps(max, copies)[..j]
    ensures PopAt(Run(s, es), max, copies, j, s.popped, avail)
    ensures j >= 1 ==> UnreadAt(s, es, at, avail, max)
    decreases |es|
  {
    if es == [] {
      at, avail := 0, 0;
      return;
    }
    var front, last := es[..|es| - 1], es[|es| - 1];
    var u := Run(s, front);
    RunFromKeepsInv(s, front, start);
    InvSizes(u, start);
    OtherSideLeaves(u, last);
    hide Inv, Step, PopAt;
    if !OfProducer(last) {
      PrefixStep(Side(front, false), last, PopOps(max, copies), j);
      at, avail := PopTracks(s, start, max, copies, front, j - 1);
      if j == 1 {
        at, avail := |front|, |Queue(u)|;
        FirstOp(u, max, copies, s.popped, avail);
      } else {
        UnreadAtFront(s, es, at, avail, max);
      }
      PopAdvances(u, start, max, copies, j - 1, s.popped, avail);
    } else {
      at, avail := PopTracks(s, start, max, copies, front, j);
      SamePopAt(u, Step(u, last), max, copies, j, s.popped, avail);
      UnreadAtFront(s, es, at, avail, max);
    }
  }

  lemma PushedStays(s: State, e: Event)
    requires |s.desc| > 0
    ensures s.pushed <= Step(s, e).pushed
  {
    hide ChunkIndex, FreeSlots;
  }

  lemma FirstOp(u: State, max: nat, copies: nat, base: seq<u64>, avail: nat)
    ensures forall any ::
      PopAt(u, max, copies, 0, base, any) ==> u.popped == base && PopAt(u, max, copies, 0, base, avail)
  {
  }

  lemma SamePopAt(u: State, t: State, max: nat, copies: nat, j: nat, base: seq<u64>, avail: nat)
    requires PopAt(u, max, copies, j, base, avail) && t.consumer == u.consumer && t.popped == u.popped
    ensures PopAt(t, max, copies, j, base, avail)
  {
  }

  lemma UnreadAtFront(s: State, es: seq<Event>, at: nat, avail: nat, max: nat)
    requires |s.desc| > 0 && es != []
    ensures UnreadAt(s, es[..|es| - 1], at, avail, max) ==> UnreadAt(s, es, at, avail, max)
  {
    hide Run, Side;
    if at < |es| - 1 {
      assert es[..|es| - 1][..at] == es[..at];
    }
  }

  lemma {:induction false} PushedGrows(s: State, es: seq<Event>, at: nat)
    requires |s.desc| > 0 && at <= |es|
    ensures Run(s, es[..at]).pushed <= Run(s, es).pushed
    decreases |es|
  {
    if at == |es| {
      assert es[..at] == es;
    } else {
      var front := es[..|es| - 1];
      PushedGrows(s, front, at);
      PushedStays(Run(s, front), es[|es| - 1]);
      assert front[..at] == es[..at];
      hide Step;
      PrefixTransitive(Run(s, es[..at]).pushed, Run(s, front).pushed, Run(s, es).pushed);
    }
  }

  lemma PrefixTransitive(a: seq<u64>, b: seq<u64>, c: seq<u64>)
    requires a <= b <= c
    ensures a <= c
  {
  }

  /** A whole pop, with any steps of the pushing side between its own: it ends idle and has taken
      exactly the min(available, max) oldest of what was unread at its first load, which is at
      position `at` of the run. */
  lemma WholePop(cap: nat, start: u32, before: seq<Event>, max: nat, copies: nat, es: seq<Event>) returns (at: nat)
    requires Geometry(cap, M) && cap > 0 && Side(es, false) == PopOps(max, copies) && Min(cap, max) <= copies
    requires Run(Initial(cap, start), before).consumer == ConsumerIdle
    ensures at < |es| && es[at] == PopLoadProd(max) && Side(es[..at], false) == []
    ensures var s := Run(Initial(cap, start), before);
            var u, t := Run(s, es[..at]), Run(s, es);
            && |u.popped| <= |u.pushed| && t.consumer == ConsumerIdle
            && t.popped == s.popped + Queue(u)[..Min(|Queue(u)|, max)]
  {
    RunKeepsInv(cap, start, before);
    var s := Run(Initial(cap, start), before);
    RunFromKeepsInv(s, es, start);
    InvSizes(Run(s, es), start);
    assert PopOps(max, copies)[..copies + 3] == PopOps(max, copies);
    hide Inv, Step, Run, Side, PopOps;
    var avail;
    at, avail := PopTracks(s, start, max, copies, es, copies + 3);
    var u, t := Run(s, es[..at]), Run(s, es);
    PushedGrows(s, es, at);
    OldestTaken(s.popped, u.pushed, t.popped, t.pushed, Min(avail, max));
  }

  lemma OldestTaken(base: seq<u64>, seen: seq<u64>, popped: seq<u64>, pushed: seq<u64>, n: nat)
    requires base <= seen <= pushed && popped <= pushed && |popped| == |base| + n && n <= |seen| - |base|
    ensures popped == base + seen[|base|..][..n]
  {
  }
}
