/** The free list of `afxdp/src/socket.rs` shared by one pushing and one popping thread: every
    load and store of `try_push` and `try_pop` is its own step, in any interleaving, on
    sequentially consistent memory. */
module FreeListSteps {
  import opened Bits
  import opened Circular
  import opened FreeLists

  const M: nat := TWO_TO_64

  /** Where `try_push(v)` stands. `headAt` records which pop the loaded head belongs to. */
  datatype Pusher =
    | PushIdle
    | TailLoaded(v: u64, tail: u64)
    | HeadLoaded(v: u64, tail: u64, head: u64, headAt: nat)
    | RoomSeen(v: u64, tail: u64)
    | SlotStored(v: u64, tail: u64)

  /** Where `try_pop` stands. `tailAt` records which push the loaded tail belongs to. */
  datatype Popper =
    | PopIdle
    | PopHeadLoaded(head: u64)
    | BothLoaded(head: u64, tail: u64, tailAt: nat)
    | SlotLoaded(head: u64, v: u64)

  /** Shared memory, the two program counters, and the values accepted and returned so far. */
  datatype State = State(
    buf: seq<u64>, head: u64, tail: u64, headroom: u64,
    pusher: Pusher, popper: Popper,
    pushed: seq<u64>, popped: seq<u64>)

  datatype Event =
    | PushLoadTail(v: u64) | PushLoadHead | PushCheck | PushStoreSlot | PushStoreTail
    | PopLoadHead | PopLoadTail | PopLoadSlot | PopStoreHead
    | SetHeadroom(headroom: u64)

  /** One step of the machine; an event that does not fit the program counters does nothing. */
  function Step(s: State, e: Event): (t: State)
    requires |s.buf| > 0
    ensures |t.buf| == |s.buf|
  {
    match e
    case PushLoadTail(v) =>
      if s.pusher.PushIdle? then s.(pusher := TailLoaded(v, s.tail)) else s
    case PushLoadHead =>
      if s.pusher.TailLoaded? then
        s.(pusher := HeadLoaded(s.pusher.v, s.pusher.tail, s.head, |s.popped|))
      else s
    case PushCheck =>
      if s.pusher.HeadLoaded? then
        if WrapSub(s.pusher.tail, s.pusher.head, M) >= Limit(|s.buf|, s.headroom)
        then s.(pusher := PushIdle)
        else s.(pusher := RoomSeen(s.pusher.v, s.pusher.tail))
      else s
    case PushStoreSlot =>
      if s.pusher.RoomSeen? then
        s.(buf := s.buf[And(s.pusher.tail, |s.buf| - 1) := s.pusher.v],
           pusher := SlotStored(s.pusher.v, s.pusher.tail))
      else s
    case PushStoreTail =>
      if s.pusher.SlotStored? then
        s.(tail := WrapAdd(s.pusher.tail, 1, M), pusher := PushIdle, pushed := s.pushed + [s.pusher.v])
      else s
    case PopLoadHead =>
      if s.popper.PopIdle? then s.(popper := PopHeadLoaded(s.head)) else s
    case PopLoadTail =>
      if s.popper.PopHeadLoaded? then
        if s.popper.head == s.tail then s.(popper := PopIdle)
        else s.(popper := BothLoaded(s.popper.head, s.tail, |s.pushed|))
      else s
    case PopLoadSlot =>
      if s.popper.BothLoaded? then
        s.(popper := SlotLoaded(s.popper.head, s.buf[And(s.popper.head, |s.buf| - 1)]))
      else s
    case PopStoreHead =>
      if s.popper.SlotLoaded? then
        s.(head := WrapAdd(s.popper.head, 1, M), popper := PopIdle, popped := s.popped + [s.popper.v])
      else s
    case SetHeadroom(h) =>
      s.(headroom := h)
  }

  function Run(s: State, es: seq<Event>): (r: State)
    requires |s.buf| > 0
    ensures |r.buf| == |s.buf|
    decreases |es|
  {
    if es == [] then s else Step(Run(s, es[..|es| - 1]), es[|es| - 1])
  }

  function Initial(cap: nat, headroom: u64): State {
    State(seq(cap, _ => 0), 0, 0, headroom, PushIdle, PopIdle, [], [])
  }

  // ---------- The invariant of every run ----------

  /** Indices are counts modulo 2^64, and the unread values sit in their slots. */
  ghost predicate QueueInSlots(s: State) {
    && Geometry(|s.buf|, M)
    && s.headroom <= |s.buf|
    && |s.popped| <= |s.pushed| <= |s.popped| + |s.buf|
    && s.tail == |s.pushed| % M
    && s.head == |s.popped| % M
    && s.popped == s.pushed[..|s.popped|]
    && (forall k :: |s.popped| <= k < |s.pushed| ==> s.buf[Slot(k, 0, |s.buf|)] == s.pushed[k])
  }

  ghost predicate PusherOk(s: State)
    requires |s.buf| > 0
  {
    match s.pusher
    case PushIdle => true
    case TailLoaded(_, t) => t == s.tail
    case HeadLoaded(_, t, h, at) => t == s.tail && h == at % M && at <= |s.popped| && |s.pushed| <= at + |s.buf|
    case RoomSeen(_, t) => t == s.tail && |s.pushed| < |s.popped| + |s.buf|
    case SlotStored(v, t) =>
      t == s.tail && |s.pushed| < |s.popped| + |s.buf| && s.buf[Slot(|s.pushed|, 0, |s.buf|)] == v
  }

  ghost predicate PopperOk(s: State) {
    match s.popper
    case PopIdle => true
    case PopHeadLoaded(h) => h == s.head
    case BothLoaded(h, t, at) => h == s.head && t == at % M && |s.popped| < at <= |s.pushed|
    case SlotLoaded(h, v) => h == s.head && |s.popped| < |s.pushed| && v == s.pushed[|s.popped|]
  }

  ghost predicate Inv(s: State) { QueueInSlots(s) && PusherOk(s) && PopperOk(s) }

  /** The masked index of a wrapped count is the count's slot. */
  lemma IndexOfCount(n: nat, cap: nat)
    requires Geometry(cap, M)
    ensures And(n % M, cap - 1) == Slot(n, 0, cap)
  {
    MaskIsMod(n % M, cap);
    PowersDivide(cap, M);
    ModMod(n, M, cap);
  }

  lemma NextIndex(n: nat)
    ensures WrapAdd(n % M, 1, M) == (n + 1) % M
  {
    ModAdd(n, 1, M);
  }

  lemma CheckKeepsInv(s: State)
    requires Inv(s) && s.pusher.HeadLoaded?
    ensures Inv(Step(s, PushCheck))
    ensures Step(s, PushCheck).pusher.RoomSeen? <==> |s.pushed| - s.pusher.headAt < |s.buf| - s.headroom
  {
    DistanceOfCounts(|s.pushed|, s.pusher.headAt, M);
    LimitGuardsLiveSlots(|s.buf|, s.headroom);
  }

  lemma StoreSlotKeepsInv(s: State)
    requires Inv(s) && s.pusher.RoomSeen?
    ensures Inv(Step(s, PushStoreSlot))
  {
    var cap, n := |s.buf|, |s.pushed|;
    IndexOfCount(n, cap);
    forall k | |s.popped| <= k < n
      ensures Slot(k, 0, cap) != Slot(n, 0, cap)
    {
      if Slot(k, 0, cap) == Slot(n, 0, cap) {
        ModClose(k, n, cap);
      }
    }
  }

  lemma PopLoadTailKeepsInv(s: State)
    requires Inv(s) && s.popper.PopHeadLoaded?
    ensures Inv(Step(s, PopLoadTail))
    ensures Step(s, PopLoadTail).popper.PopIdle? <==> s.popped == s.pushed
  {
    if s.head == s.tail {
      ModClose(|s.popped|, |s.pushed|, M);
    }
  }

  lemma StoreTailKeepsInv(s: State)
    requires Inv(s) && s.pusher.SlotStored?
    ensures Inv(Step(s, PushStoreTail))
  {
    NextIndex(|s.pushed|);
    hide Slot, WrapAdd, Geometry;
  }

  lemma StoreHeadKeepsInv(s: State)
    requires Inv(s) && s.popper.SlotLoaded?
    ensures Inv(Step(s, PopStoreHead))
  {
    NextIndex(|s.popped|);
    hide Slot, WrapAdd, Geometry;
  }

  lemma LoadSlotKeepsInv(s: State)
    requires Inv(s) && s.popper.BothLoaded?
    ensures Inv(Step(s, PopLoadSlot))
  {
    IndexOfCount(|s.popped|, |s.buf|);
  }

  /** The steps that only load an index or change the headroom. */
  lemma LoadKeepsInv(s: State, e: Event)
    requires Inv(s) && Guarded(e, |s.buf|) && (e.PushLoadTail? || e.PushLoadHead? || e.PopLoadHead? || e.SetHeadroom?)
    ensures Inv(Step(s, e))
  {
  }

  /** A new headroom is at most the capacity; `SafeExactlyWhenGuarded` shows that it has to be. */
  predicate Guarded(e: Event, cap: nat) { e.SetHeadroom? ==> e.headroom <= cap }

  ghost predicate AllGuarded(es: seq<Event>, cap: nat) { forall e :: e in es ==> Guarded(e, cap) }

  /** No step of either thread, in any order, breaks the invariant. */
  lemma StepKeepsInv(s: State, e: Event)
    requires Inv(s) && Guarded(e, |s.buf|)
    ensures Inv(Step(s, e))
  {
    assert Geometry(|s.buf|, M);
    hide Inv;
    match e
    case PushCheck => if s.pusher.HeadLoaded? { CheckKeepsInv(s); }
    case PushStoreSlot => if s.pusher.RoomSeen? { StoreSlotKeepsInv(s); }
    case PushStoreTail => if s.pusher.SlotStored? { StoreTailKeepsInv(s); }
    case PopLoadTail => if s.popper.PopHeadLoaded? { PopLoadTailKeepsInv(s); }
    case PopLoadSlot => if s.popper.BothLoaded? { LoadSlotKeepsInv(s); }
    case PopStoreHead => if s.popper.SlotLoaded? { StoreHeadKeepsInv(s); }
    case _ => LoadKeepsInv(s, e);
  }

  lemma {:induction false} RunKeepsInv(cap: nat, headroom: u64, es: seq<Event>)
    requires Geometry(cap, M) && headroom <= cap && AllGuarded(es, cap)
    ensures Inv(Run(Initial(cap, headroom), es))
    decreases |es|
  {
    if es == [] {
      ModUnique(0, M, 0, 0);
    } else {
      assert forall e :: e in es[..|es| - 1] ==> e in es;
      RunKeepsInv(cap, headroom, es[..|es| - 1]);
      StepKeepsInv(Run(Initial(cap, headroom), es[..|es| - 1]), es[|es| - 1]);
    }
  }

  // ---------- The queue ----------

  /** The queue of accepted values nobody has taken yet. */
  function Queue(s: State): seq<u64>
    requires |s.popped| <= |s.pushed|
  {
    s.pushed[|s.popped|..]
  }

  /** Every reachable state: what was popped is what was pushed, in order, without loss or
      duplication, and never more than the capacity is outstanding. */
  lemma NothingLostOrReordered(cap: nat, headroom: u64, es: seq<Event>)
    requires Geometry(cap, M) && headroom <= cap && AllGuarded(es, cap)
    ensures var s := Run(Initial(cap, headroom), es);
            |s.popped| <= |s.pushed| && s.pushed == s.popped + Queue(s) && |Queue(s)| <= cap
  {
    RunKeepsInv(cap, headroom, es);
  }

  lemma QueueSizes(s: State)
    requires Inv(s)
    ensures |s.popped| <= |s.pushed|
  {
  }

  /** A step is a push of one value, a pop of the oldest value, or invisible. */
  lemma StepMovesQueue(s: State, e: Event)
    requires Inv(s)
    ensures var t := Step(s, e);
            && |s.popped| <= |s.pushed| && |t.popped| <= |t.pushed|
            && (if e.PushStoreTail? && s.pusher.SlotStored? then
                  Queue(t) == Queue(s) + [s.pusher.v]
                else if e.PopStoreHead? && s.popper.SlotLoaded? then
                  Queue(s) != [] && Queue(t) == Queue(s)[1..] && s.popper.v == Queue(s)[0]
                else Queue(t) == Queue(s))
  {
    hide And, Limit;
    if e.PushStoreTail? && s.pusher.SlotStored? {
      assert (s.pushed + [s.pusher.v])[|s.popped|..] == s.pushed[|s.popped|..] + [s.pusher.v];
    } else if e.PopStoreHead? && s.popper.SlotLoaded? {
      PopMovesQueue(s);
    } else {
      OtherStepsKeepQueue(s, e);
    }
  }

  lemma PopMovesQueue(s: State)
    requires Inv(s) && s.popper.SlotLoaded?
    ensures var t := Step(s, PopStoreHead);
            && |s.popped| < |s.pushed| && |t.popped| <= |t.pushed|
            && Queue(t) == Queue(s)[1..] && s.popper.v == Queue(s)[0]
  {
  }

  lemma OtherStepsKeepQueue(s: State, e: Event)
    requires |s.buf| > 0
    requires !(e.PushStoreTail? && s.pusher.SlotStored?) && !(e.PopStoreHead? && s.popper.SlotLoaded?)
    ensures Step(s, e).pushed == s.pushed && Step(s, e).popped == s.popped
  {
  }

  /** In every reachable state a step refines one of the queue; a push is refused, and a pop finds
      nothing, only on what the loads saw. */
  lemma StepRefinesQueue(cap: nat, headroom: u64, es: seq<Event>, e: Event)
    requires Geometry(cap, M) && headroom <= cap && AllGuarded(es, cap)
    ensures var s := Run(Initial(cap, headroom), es);
            var t := Step(s, e);
            && |s.popped| <= |s.pushed| && |t.popped| <= |t.pushed|
            && (if e.PushStoreTail? && s.pusher.SlotStored? then
                  Queue(t) == Queue(s) + [s.pusher.v]
                else if e.PopStoreHead? && s.popper.SlotLoaded? then
                  Queue(s) != [] && Queue(t) == Queue(s)[1..] && s.popper.v == Queue(s)[0]
                else Queue(t) == Queue(s))
            && (e.PushCheck? && s.pusher.HeadLoaded? ==>
                  (t.pusher.PushIdle? <==> |s.pushed| - s.pusher.headAt >= cap - s.headroom))
            && (e.PopLoadTail? && s.popper.PopHeadLoaded? ==> (t.popper.PopIdle? <==> Queue(s) == []))
  {
    RunKeepsInv(cap, headroom, es);
    var s := Run(Initial(cap, headroom), es);
    StepMovesQueue(s, e);
    QueueSizes(s);
    if e.PushCheck? && s.pusher.HeadLoaded? {
      CheckRefuses(s);
    } else if e.PopLoadTail? && s.popper.PopHeadLoaded? {
      EmptyAnswer(s);
    }
    hide Step, Inv, Run;
  }

  lemma CheckRefuses(s: State)
    requires Inv(s) && s.pusher.HeadLoaded?
    ensures Step(s, PushCheck).pusher.PushIdle? <==> |s.pushed| - s.pusher.headAt >= |s.buf| - s.headroom
  {
    CheckKeepsInv(s);
  }

  lemma EmptyAnswer(s: State)
    requires Inv(s) && s.popper.PopHeadLoaded?
    ensures |s.popped| <= |s.pushed| && (Step(s, PopLoadTail).popper.PopIdle? <==> Queue(s) == [])
  {
    PopLoadTailKeepsInv(s);
  }

  // ---------- Headroom above the capacity ----------

  /** The steps of one `try_push` and of one `try_pop`, with nothing between them. */
  function PushSteps(v: u64): seq<Event> { [PushLoadTail(v), PushLoadHead, PushCheck, PushStoreSlot, PushStoreTail] }

  function PopSteps(): seq<Event> { [PopLoadHead, PopLoadTail, PopLoadSlot, PopStoreHead] }

  lemma {:induction false} RunAppend(s: State, a: seq<Event>, b: seq<Event>)
    requires |s.buf| > 0
    ensures Run(s, a + b) == Run(Run(s, a), b)
    decreases |b|
  {
    if b == [] {
      assert a + b == a;
    } else {
      assert (a + b)[..|a + b| - 1] == a + b[..|b| - 1];
      RunAppend(s, a, b[..|b| - 1]);
    }
  }

  lemma RunOne(s: State, e: Event)
    requires |s.buf| > 0
    ensures Run(s, [e]) == Step(s, e)
  {
    assert [e][..0] == [];
  }

  lemma RunFirst(s: State, e: Event, es: seq<Event>)
    requires |s.buf| > 0
    ensures Run(s, [e] + es) == Run(Step(s, e), es)
  {
    RunAppend(s, [e], es);
    RunOne(s, e);
  }

  lemma RunPush(s: State, v: u64)
    requires |s.buf| > 0 && s.pusher.PushIdle?
    requires WrapSub(s.tail, s.head, M) < Limit(|s.buf|, s.headroom)
    ensures Run(s, PushSteps(v)) == s.(buf := s.buf[And(s.tail, |s.buf| - 1) := v], tail := WrapAdd(s.tail, 1, M),
                                       pushed := s.pushed + [v])
  {
    var es := PushSteps(v);
    assert es == [es[0]] + ([es[1]] + ([es[2]] + ([es[3]] + [es[4]])));
    var s1 := Step(s, es[0]);
    var s2 := Step(s1, es[1]);
    var s3 := Step(s2, es[2]);
    var s4 := Step(s3, es[3]);
    RunFirst(s, es[0], [es[1]] + ([es[2]] + ([es[3]] + [es[4]])));
    RunFirst(s1, es[1], [es[2]] + ([es[3]] + [es[4]]));
    RunFirst(s2, es[2], [es[3]] + [es[4]]);
    RunFirst(s3, es[3], [es[4]]);
    RunOne(s4, es[4]);
    hide Run, And, Limit;
  }

  lemma RunPop(s: State)
    requires |s.buf| > 0 && s.popper.PopIdle? && s.head != s.tail
    ensures Run(s, PopSteps()) == s.(head := WrapAdd(s.head, 1, M),
                                     popped := s.popped + [s.buf[And(s.head, |s.buf| - 1)]])
  {
    var es := PopSteps();
    assert es == [es[0]] + ([es[1]] + ([es[2]] + [es[3]]));
    var s1 := Step(s, es[0]);
    var s2 := Step(s1, es[1]);
    var s3 := Step(s2, es[2]);
    RunFirst(s, es[0], [es[1]] + ([es[2]] + [es[3]]));
    RunFirst(s1, es[1], [es[2]] + [es[3]]);
    RunFirst(s2, es[2], [es[3]]);
    RunOne(s3, es[3]);
    hide Run, And;
  }

  /** Pushes of `0..n`, one after the other. */
  function Pushes(n: nat): seq<Event>
    requires n <= M
  {
    if n == 0 then [] else Pushes(n - 1) + PushSteps(n - 1)
  }

  /** Both threads idle after `n` pushes of `0..n` and no pop. */
  ghost predicate Overfilled(s: State, cap: nat, headroom: u64, n: nat)
    requires 0 < cap
  {
    && s.pusher.PushIdle? && s.popper.PopIdle? && s.headroom == headroom
    && s.head == 0 && s.tail == n % M && s.popped == [] && |s.buf| == cap
    && |s.pushed| == n && (n > 0 ==> s.pushed[0] == 0 && s.buf[And((n - 1) % M, cap - 1)] == n - 1)
  }

  lemma OverfillStep(s: State, cap: nat, headroom: u64, n: u64)
    requires Geometry(cap, M) && cap < headroom && n <= cap && Overfilled(s, cap, headroom, n)
    ensures Overfilled(Run(s, PushSteps(n)), cap, headroom, n + 1)
  {
    assert 0 < cap < M;
    hide Geometry, Run, And, PushSteps;
    ModUnique(n, M, 0, n);
    ModUnique(cap - headroom, M, -1, cap - headroom + M);
    RunPush(s, n);
  }

  /** With a headroom above the capacity nothing stops the pushes when the list is full. */
  lemma {:induction false} Overfill(cap: nat, headroom: u64, n: nat)
    requires Geometry(cap, M) && cap < headroom && n <= cap + 1
    ensures Overfilled(Run(Initial(cap, headroom), Pushes(n)), cap, headroom, n)
    decreases n
  {
    if n > 0 {
      Overfill(cap, headroom, n - 1);
      hide Overfilled, Run, PushSteps;
      OverfillStep(Run(Initial(cap, headroom), Pushes(n - 1)), cap, headroom, n - 1);
      RunAppend(Initial(cap, headroom), Pushes(n - 1), PushSteps(n - 1));
    } else {
      ModUnique(0, M, 0, 0);
    }
  }

  /** The headroom is raised, the list filled, and one value popped. */
  function Overflow(cap: nat, h: u64): seq<Event>
    requires cap < M
  {
    [SetHeadroom(h)] + (Pushes(cap + 1) + PopSteps())
  }

  /** The oldest value is lost: the first pop returns the last value pushed instead. */
  lemma OverfillLosesOldest(cap: nat, headroom: u64, h: u64)
    requires Geometry(cap, M) && cap < h
    ensures var s := Run(Initial(cap, headroom), Overflow(cap, h));
            |s.pushed| == cap + 1 && s.popped == [cap] && s.pushed[0] == 0
  {
    hide Run, And, Pushes, PopSteps, Geometry, Overfilled;
    FullSlots(cap);
    Overfill(cap, h, cap + 1);
    var s := Run(Initial(cap, h), Pushes(cap + 1));
    RunFirst(Initial(cap, headroom), SetHeadroom(h), Pushes(cap + 1) + PopSteps());
    RunAppend(Initial(cap, h), Pushes(cap + 1), PopSteps());
    OverfilledPop(s, cap, h);
  }

  lemma FullSlots(cap: nat)
    requires Geometry(cap, M)
    ensures 0 < cap && cap + 1 < M && And(cap % M, cap - 1) == 0 == And(0, cap - 1)
    ensures (cap + 1) % M == cap + 1
  {
    WordSizes();
    assert cap + 1 < M;
    ModUnique(cap, M, 0, cap);
    ModUnique(cap + 1, M, 0, cap + 1);
    ModUnique(cap, cap, 1, 0);
    MaskIsMod(cap, cap);
    hide Geometry, IsPowerOfTwo;
  }

  lemma OverfilledPop(s: State, cap: nat, h: u64)
    requires Geometry(cap, M) && Overfilled(s, cap, h, cap + 1)
    ensures var t := Run(s, PopSteps());
            t.pushed == s.pushed && t.popped == [cap] && |s.pushed| == cap + 1 && s.pushed[0] == 0
  {
    hide Run, And, PopSteps, Geometry;
    FullSlots(cap);
    RunPop(s);
  }

  lemma {:induction false} PushesGuarded(n: nat, bound: nat)
    requires n <= M
    ensures AllGuarded(Pushes(n), bound)
    decreases n
  {
    if n > 0 {
      PushesGuarded(n - 1, bound);
    }
  }

  lemma OverflowGuarded(cap: nat, h: u64)
    requires cap < M
    ensures AllGuarded(Overflow(cap, h), h)
  {
    PushesGuarded(cap + 1, h);
    hide Pushes;
  }

  /** Exactly when the list is a queue under every interleaving in which the headroom is set to at
      most `h`, from a start with a headroom the list has room for: when it has room for `h`. */
  lemma SafeExactlyWhenGuarded(cap: nat, headroom: u64, h: u64)
    requires Geometry(cap, M) && headroom <= cap
    ensures (forall es :: AllGuarded(es, h) ==>
              var s := Run(Initial(cap, headroom), es); s.popped <= s.pushed)
            <==> h <= cap
  {
    hide Run;
    if h <= cap {
      forall es | AllGuarded(es, h)
        ensures var s := Run(Initial(cap, headroom), es); s.popped <= s.pushed
      {
        NothingLostOrReordered(cap, headroom, es);
      }
    } else {
      OverfillLosesOldest(cap, headroom, h);
      OverflowGuarded(cap, h);
      hide Overflow, AllGuarded;
      var s := Run(Initial(cap, headroom), Overflow(cap, h));
      assert s.popped[0] != s.pushed[0];
    }
  }
}
