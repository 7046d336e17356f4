/** Where every UMEM frame is, on values: the free list, the TX ring, the kernel and the
    completion ring, and what one `send` of `afxdp/src/socket.rs` does to them. */
module FrameFlow {
  import opened Bits

  const MAX_RETRIES: nat := 8
  const RECLAIM_BATCH: nat := 64

  /** Frame addresses by place, with the bounds each place has. `sent` is the history of all
      addresses ever pushed to the TX ring. */
  datatype View = View(
    free: seq<u64>, limit: nat,
    tx: seq<u64>, txCap: nat,
    kernel: seq<u64>,
    comp: seq<u64>, compCap: nat,
    nextFrame: u64,
    sent: seq<u64>)

  /** The UMEM: `count` frames of `size` bytes. */
  datatype Umem = Umem(count: nat, size: nat) {
    predicate Valid() { count > 0 && size > 0 && count * size <= TWO_TO_64 }

    predicate IsFrame(a: u64)
      requires Valid()
    {
      a % size == 0 && a / size < count
    }
  }

  function FrameAddr(u: Umem, i: nat): (a: u64)
    requires u.Valid() && i < u.count
    ensures u.IsFrame(a) && a == i * u.size && a + u.size <= u.count * u.size
  {
    var a := i * u.size;
    MulAtLeast(1, u.size, i + 1, i);
    MulAtMost(i + 1, u.count, u.size);
    ModUnique(a, u.size, i, 0);
    a
  }

  function FrameList(u: Umem): seq<u64>
    requires u.Valid()
  {
    seq(u.count, i requires 0 <= i < u.count => FrameAddr(u, i))
  }

  // ---------- The kernel ----------

  /** The kernel takes the oldest TX descriptor, or completes any frame it holds. */
  datatype Move = Take | Complete(i: nat)

  function KernelMove(v: View, m: Move): View {
    match m
    case Take =>
      if v.tx == [] then v else v.(tx := v.tx[1..], kernel := v.kernel + [v.tx[0]])
    case Complete(i) =>
      if i < |v.kernel| && |v.comp| < v.compCap
      then v.(kernel := v.kernel[..i] + v.kernel[i + 1..], comp := v.comp + [v.kernel[i]])
      else v
  }

  function KernelMoves(v: View, ms: seq<Move>): View
    decreases |ms|
  {
    if ms == [] then v else KernelMove(KernelMoves(v, ms[..|ms| - 1]), ms[|ms| - 1])
  }

  // ---------- One attempt of `send` ----------

  /** Pushing addresses in order until the list is full; the rest is refused. */
  function Accepted(free: seq<u64>, limit: nat, addrs: seq<u64>): nat {
    Min(if limit > |free| then limit - |free| else 0, |addrs|)
  }

  function Reclaim(v: View): View {
    var comps := v.comp[..Min(RECLAIM_BATCH, |v.comp|)];
    v.(comp := v.comp[|comps|..], free := v.free + comps[..Accepted(v.free, v.limit, comps)])
  }

  /** The bump allocator's next addresses. */
  function Bumped(u: Umem, next: u64, n: nat): seq<u64>
    requires u.Valid()
    decreases n
  {
    if n == 0 then [] else Bumped(u, next, n - 1) + [FrameAddr(u, WrapAdd(next, n - 1, TWO_TO_64) % u.count)]
  }

  function Allocated(u: Umem, v: View, n: nat): (addrs: seq<u64>)
    requires u.Valid()
  {
    var k := Min(n, |v.free|);
    v.free[..k] + Bumped(u, v.nextFrame, n - k)
  }

  function AfterAlloc(v: View, n: nat): View {
    var k := Min(n, |v.free|);
    v.(free := v.free[k..], nextFrame := WrapAdd(v.nextFrame, n - k, TWO_TO_64))
  }

  function AfterTxPush(v: View, addrs: seq<u64>, pushed: nat): View
    requires pushed <= |addrs|
  {
    v.(tx := v.tx + addrs[..pushed], sent := v.sent + addrs[..pushed])
  }

  function AfterReturn(v: View, addrs: seq<u64>): View {
    v.(free := v.free + addrs[..Accepted(v.free, v.limit, addrs)])
  }

  /** How many of `n` descriptors the TX ring takes. */
  function Room(v: View, n: nat): (k: nat)
    ensures k <= n
  {
    Min(if v.txCap > |v.tx| then v.txCap - |v.tx| else 0, n)
  }

  /** What the kernel does before an attempt reclaims, and before it pushes. */
  datatype Slack = Slack(before: seq<Move>, between: seq<Move>)

  datatype Attempt = Attempt(view: View, ok: bool, addrs: seq<u64>, pushed: nat, dropped: nat, fellBack: bool)

  function TryOnce(u: Umem, v: View, n: nat, slack: Slack): (a: Attempt)
    requires u.Valid()
  {
    var reclaimed := Reclaimed(v, slack);
    PushOrReturn(KernelMoves(AfterAlloc(reclaimed, n), slack.between), Allocated(u, reclaimed, n), |reclaimed.free| < n)
  }

  function Reclaimed(v: View, slack: Slack): View { Reclaim(KernelMoves(v, slack.before)) }

  /** The addresses in hand go to the TX ring; unless all fit, all go back to the free list. */
  function PushOrReturn(ready: View, addrs: seq<u64>, fellBack: bool): Attempt {
    var pushed := Room(ready, |addrs|);
    var done := AfterTxPush(ready, addrs, pushed);
    if pushed == |addrs| then
      Attempt(done, true, addrs, pushed, 0, fellBack)
    else
      Attempt(AfterReturn(done, addrs), false, addrs, pushed,
              |addrs| - Accepted(done.free, done.limit, addrs), fellBack)
  }

  /** An attempt that neither bumped the allocator nor pushed only part of its batch. */
  predicate Clean(a: Attempt) { !a.fellBack && (a.pushed == 0 || a.pushed == |a.addrs|) }

  // ---------- The retry loop ----------

  datatype Outcome = Outcome(
    view: View, ok: bool, addrs: seq<u64>,
    attempts: nat, retries: nat, backpressure: nat, dropped: nat, clean: bool)

  /** The outcome when this attempt is the last one. */
  function LastAttempt(a: Attempt): Outcome {
    if a.ok then Outcome(a.view, true, a.addrs, 1, 0, 0, 0, Clean(a))
    else Outcome(a.view, false, [], 1, 0, 1, a.dropped, Clean(a))
  }

  /** The outcome when this attempt failed and the loop went on to `o`. */
  function AfterFailure(a: Attempt, o: Outcome): Outcome {
    o.(attempts := o.attempts + 1, retries := o.retries + 1, backpressure := o.backpressure + 1,
       dropped := o.dropped + a.dropped, clean := o.clean && Clean(a))
  }

  /** `send` from its `attempt`-th attempt on; `slack(i)` is the kernel's activity in attempt `i`. */
  function SendFrom(u: Umem, v: View, n: nat, slack: nat -> Slack, attempt: nat): (o: Outcome)
    requires u.Valid() && attempt <= MAX_RETRIES
    decreases MAX_RETRIES - attempt
  {
    var a := TryOnce(u, v, n, slack(attempt));
    if a.ok || attempt == MAX_RETRIES then LastAttempt(a)
    else AfterFailure(a, SendFrom(u, a.view, n, slack, attempt + 1))
  }

  function Send(u: Umem, v: View, n: nat, slack: nat -> Slack): Outcome
    requires u.Valid()
  {
    SendFrom(u, v, n, slack, 0)
  }

  // ---------- Conservation ----------

  function Everywhere(v: View): multiset<u64> {
    multiset(v.free) + multiset(v.tx) + multiset(v.kernel) + multiset(v.comp)
  }

  /** Every frame is in exactly one place, and the free list has room for all of them. */
  ghost predicate Conserved(u: Umem, v: View)
    requires u.Valid()
  {
    Everywhere(v) == multiset(FrameList(u)) && u.count <= v.limit
  }

  function Prefilled(u: Umem, limit: nat, txCap: nat, compCap: nat): View
    requires u.Valid()
  {
    View(FrameList(u), limit, [], txCap, [], [], compCap, 0, [])
  }

  lemma PrefilledConserved(u: Umem, limit: nat, txCap: nat, compCap: nat)
    requires u.Valid() && u.count <= limit
    ensures Conserved(u, Prefilled(u, limit, txCap, compCap))
    ensures InUmem(u, Prefilled(u, limit, txCap, compCap))
  {
  }

  /** What the kernel leaves as it was: every count, the bounds, and the completions already
      there; it adds nothing to what is on its side of the TX ring. */
  ghost predicate KernelKeeps(v: View, w: View) {
    && Everywhere(w) == Everywhere(v)
    && w == v.(tx := w.tx, kernel := w.kernel, comp := w.comp)
    && |w.tx| <= |v.tx| && |w.comp| >= |v.comp|
    && multiset(w.tx) + multiset(w.kernel) <= multiset(v.tx) + multiset(v.kernel)
  }

  lemma KernelMoveConserves(v: View, m: Move)
    ensures KernelKeeps(v, KernelMove(v, m))
  {
    match m
    case Take => if v.tx != [] { assert v.tx == [v.tx[0]] + v.tx[1..]; }
    case Complete(i) => if i < |v.kernel| { assert v.kernel == v.kernel[..i] + [v.kernel[i]] + v.kernel[i + 1..]; }
  }

  lemma {:induction false} KernelMovesConserve(v: View, ms: seq<Move>)
    ensures KernelKeeps(v, KernelMoves(v, ms))
    decreases |ms|
  {
    if ms != [] {
      KernelMovesConserve(v, ms[..|ms| - 1]);
      KernelMoveConserves(KernelMoves(v, ms[..|ms| - 1]), ms[|ms| - 1]);
    }
  }

  lemma PlaceSizes(u: Umem, v: View)
    requires u.Valid() && Conserved(u, v)
    ensures |v.free| + |v.tx| + |v.kernel| + |v.comp| == u.count
  {
    assert |Everywhere(v)| == |v.free| + |v.tx| + |v.kernel| + |v.comp|;
  }

  lemma ReclaimConserves(u: Umem, v: View)
    requires u.Valid() && Conserved(u, v)
    ensures Conserved(u, Reclaim(v))
    ensures Reclaim(v) == v.(comp := Reclaim(v).comp, free := Reclaim(v).free)
    ensures |Reclaim(v).free| == |v.free| + Min(RECLAIM_BATCH, |v.comp|)
  {
    PlaceSizes(u, v);
    var comps := v.comp[..Min(RECLAIM_BATCH, |v.comp|)];
    assert comps[..Accepted(v.free, v.limit, comps)] == comps;
    assert v.comp == comps + v.comp[|comps|..];
  }

  // ---------- Only frames ----------

  /** Every address anywhere is the start of a frame. */
  ghost predicate InUmem(u: Umem, v: View)
    requires u.Valid()
  {
    forall a :: a in Everywhere(v) ==> u.IsFrame(a)
  }

  ghost predicate AreFrames(u: Umem, addrs: seq<u64>)
    requires u.Valid()
  {
    forall a :: a in addrs ==> u.IsFrame(a)
  }

  lemma AllocInUmem(u: Umem, v: View, n: nat)
    requires u.Valid() && InUmem(u, v)
    ensures InUmem(u, AfterAlloc(v, n)) && AreFrames(u, Allocated(u, v, n)) && |Allocated(u, v, n)| == n
  {
    var k := Min(n, |v.free|);
    assert v.free == v.free[..k] + v.free[k..];
    assert forall a :: a in v.free ==> a in Everywhere(v);
    BumpedFrames(u, v.nextFrame, n - k);
  }

  lemma {:induction false} BumpedFrames(u: Umem, next: u64, n: nat)
    requires u.Valid()
    ensures |Bumped(u, next, n)| == n && AreFrames(u, Bumped(u, next, n))
    decreases n
  {
    if n > 0 {
      BumpedFrames(u, next, n - 1);
    }
  }

  /** Allocating one more frame. */
  lemma AllocOneMore(u: Umem, v: View, n: nat)
    requires u.Valid()
    ensures AfterAlloc(v, n + 1) == AfterAlloc(AfterAlloc(v, n), 1)
    ensures Allocated(u, v, n + 1) == Allocated(u, v, n) + Allocated(u, AfterAlloc(v, n), 1)
  {
    var k := Min(n, |v.free|);
    if n >= |v.free| {
      BumpOneMore(u, v.nextFrame, n - k);
    } else {
      ModUnique(v.nextFrame, TWO_TO_64, 0, v.nextFrame);
      assert v.free[..n + 1] == v.free[..n] + v.free[n..][..1];
    }
  }

  lemma BumpOneMore(u: Umem, next: u64, n: nat)
    requires u.Valid()
    ensures WrapAdd(WrapAdd(next, n, TWO_TO_64), 1, TWO_TO_64) == WrapAdd(next, n + 1, TWO_TO_64)
    ensures Bumped(u, next, n + 1) == Bumped(u, next, n) + Bumped(u, WrapAdd(next, n, TWO_TO_64), 1)
  {
    var moved := WrapAdd(next, n, TWO_TO_64);
    ModAdd(next + n, 1, TWO_TO_64);
    ModUnique(moved, TWO_TO_64, 0, moved);
    assert Bumped(u, moved, 0) == [];
  }

  lemma ReclaimInUmem(u: Umem, v: View)
    requires u.Valid() && InUmem(u, v)
    ensures InUmem(u, Reclaim(v))
  {
    var comps := v.comp[..Min(RECLAIM_BATCH, |v.comp|)];
    assert v.comp == comps + v.comp[|comps|..];
    assert comps == comps[..Accepted(v.free, v.limit, comps)] + comps[Accepted(v.free, v.limit, comps)..];
  }

  lemma ReturnInUmem(u: Umem, v: View, addrs: seq<u64>, pushed: nat)
    requires u.Valid() && InUmem(u, v) && AreFrames(u, addrs) && pushed <= |addrs|
    ensures InUmem(u, AfterTxPush(v, addrs, pushed)) && InUmem(u, AfterReturn(v, addrs))
  {
    var kept := addrs[..Accepted(v.free, v.limit, addrs)];
    assert forall a :: a in addrs[..pushed] ==> a in addrs;
    assert forall a :: a in kept ==> a in addrs;
  }

  // ---------- No frame twice ----------

  ghost predicate Distinct(s: seq<u64>) {
    forall i, j :: 0 <= i < j < |s| ==> s[i] != s[j]
  }

  lemma {:induction false} DistinctCounts(s: seq<u64>)
    requires Distinct(s)
    ensures forall x :: multiset(s)[x] <= 1
  {
    if s != [] {
      var front, last := s[..|s| - 1], s[|s| - 1];
      DistinctCounts(front);
      assert s == front + [last];
      assert last !in front;
      assert last !in multiset(front);
    }
  }

  lemma CountsDistinct(s: seq<u64>, whole: multiset<u64>)
    requires multiset(s) <= whole && forall x :: whole[x] <= 1
    ensures Distinct(s)
  {
    forall i, j | 0 <= i < j < |s|
      ensures s[i] != s[j]
    {
      var front, back := s[..j], s[j..];
      assert s == front + back;
      assert s[i] in front && s[j] in back;
      assert multiset(s)[s[j]] == multiset(front)[s[j]] + multiset(back)[s[j]];
    }
  }

  lemma FramesDistinct(u: Umem)
    requires u.Valid()
    ensures Distinct(FrameList(u))
    ensures forall x :: multiset(FrameList(u))[x] <= 1
  {
    forall i, j | 0 <= i < j < u.count
      ensures FrameList(u)[i] != FrameList(u)[j]
    {
      MulAtLeast(j - i, u.size, j, i);
    }
    DistinctCounts(FrameList(u));
  }

  /** Conservation, frame by frame: its counts in the four places add up to one. */
  lemma FrameInExactlyOnePlace(u: Umem, v: View, i: nat)
    requires u.Valid() && i < u.count && Conserved(u, v)
    ensures var a := FrameAddr(u, i);
            multiset(v.free)[a] + multiset(v.tx)[a] + multiset(v.kernel)[a] + multiset(v.comp)[a] == 1
  {
    FramesDistinct(u);
    var a := FrameAddr(u, i);
    assert FrameList(u)[i] == a;
    assert a in multiset(FrameList(u));
    assert Everywhere(v)[a] == multiset(FrameList(u))[a];
  }

  // ---------- One attempt ----------

  /** What every attempt does, conserved or not. */
  lemma AttemptShape(u: Umem, v: View, n: nat, slack: Slack)
    requires u.Valid()
    ensures var a := TryOnce(u, v, n, slack);
            && |a.addrs| == n && a.pushed <= n
            && a.view.sent == v.sent + a.addrs[..a.pushed]
            && a.view.txCap == v.txCap && a.view.limit == v.limit
            && (a.ok <==> a.pushed == n)
            && (a.ok ==> n <= |a.view.tx| && a.view.tx[|a.view.tx| - n..] == a.addrs)
            && (|v.tx| <= v.txCap ==> |a.view.tx| <= v.txCap)
            && (a.fellBack <==> |Reclaimed(v, slack).free| < n)
  {
    KernelMovesConserve(v, slack.before);
    var reclaimed := Reclaimed(v, slack);
    BumpedFrames(u, reclaimed.nextFrame, n - Min(n, |reclaimed.free|));
    var inHand, addrs := AfterAlloc(reclaimed, n), Allocated(u, reclaimed, n);
    KernelMovesConserve(inHand, slack.between);
    hide KernelMoves, Bumped, Everywhere;
    PushShape(KernelMoves(inHand, slack.between), addrs, |reclaimed.free| < n);
    hide PushOrReturn;
  }

  lemma PushShape(ready: View, addrs: seq<u64>, fellBack: bool)
    ensures var a := PushOrReturn(ready, addrs, fellBack);
            && a.addrs == addrs && a.fellBack == fellBack && a.pushed == Room(ready, |addrs|)
            && a.view.sent == ready.sent + addrs[..a.pushed]
            && a.view.txCap == ready.txCap && a.view.limit == ready.limit
            && (a.ok <==> a.pushed == |addrs|)
            && a.view.tx == ready.tx + addrs[..a.pushed] && a.view.kernel == ready.kernel && a.view.comp == ready.comp
            && a.view.free
               == (if a.ok then ready.free else ready.free + addrs[..Accepted(ready.free, ready.limit, addrs)])
            && a.dropped == (if a.ok then 0 else |addrs| - Accepted(ready.free, ready.limit, addrs))
  {
  }

  /** From a conserved state with a TX ring, an attempt leaves a conserved state exactly when it
      neither fell back to the bump allocator nor pushed a strict, non-empty part of its batch. */
  lemma AttemptConserves(u: Umem, v: View, n: nat, slack: Slack)
    requires u.Valid() && Conserved(u, v) && 0 < v.txCap
    ensures var a := TryOnce(u, v, n, slack);
            && (Conserved(u, a.view) <==> Clean(a))
            && (!a.fellBack ==> a.dropped == 0 && Distinct(a.addrs))
  {
    var a := TryOnce(u, v, n, slack);
    hide TryOnce, Conserved, Distinct;
    if a.fellBack {
      FallbackLosesTrack(u, v, n, slack);
    } else {
      OwnFramesConserve(u, v, n, slack);
    }
  }

  lemma OwnFramesConserve(u: Umem, v: View, n: nat, slack: Slack)
    requires u.Valid() && Conserved(u, v)
    requires !TryOnce(u, v, n, slack).fellBack
    ensures var a := TryOnce(u, v, n, slack);
            && (Conserved(u, a.view) <==> a.pushed == 0 || a.pushed == |a.addrs|)
            && a.dropped == 0 && Distinct(a.addrs)
  {
    var ready, addrs := InHand(u, v, n, slack);
    AllocatedDistinct(u, Reclaimed(v, slack), n);
    hide Everywhere, FrameList, Distinct, Reclaimed;
    TxPushConserves(u, ready, addrs, Room(ready, n));
  }

  /** The state before the push, when the free list had enough: its places and the addresses in
      hand make up all frames. */
  lemma InHand(u: Umem, v: View, n: nat, slack: Slack) returns (ready: View, addrs: seq<u64>)
    requires u.Valid() && Conserved(u, v) && n <= |Reclaimed(v, slack).free|
    ensures Conserved(u, Reclaimed(v, slack)) && addrs == Reclaimed(v, slack).free[..n]
    ensures TryOnce(u, v, n, slack) == PushOrReturn(ready, addrs, false)
    ensures Everywhere(ready) + multiset(addrs) == multiset(FrameList(u))
    ensures u.count <= ready.limit && ready.txCap == v.txCap && |ready.tx| <= |v.tx|
    ensures |ready.free| == |Reclaimed(v, slack).free| - n
    ensures multiset(ready.tx) + multiset(ready.kernel) <= multiset(v.tx) + multiset(v.kernel)
    ensures |Reclaimed(v, slack).free| >= |v.free| + Min(RECLAIM_BATCH, |v.comp|)
  {
    var started := KernelMoves(v, slack.before);
    KernelMovesConserve(v, slack.before);
    ReclaimConserves(u, started);
    var reclaimed := Reclaimed(v, slack);
    AllocConserves(u, reclaimed, n);
    addrs := reclaimed.free[..n];
    var inHand := AfterAlloc(reclaimed, n);
    ready := KernelMoves(inHand, slack.between);
    KernelMovesConserve(inHand, slack.between);
    hide Everywhere, FrameList, KernelMoves, PushOrReturn;
  }

  /** A bumped address is one too many: the places then hold more than there are frames. */
  lemma FallbackLosesTrack(u: Umem, v: View, n: nat, slack: Slack)
    requires u.Valid() && Conserved(u, v) && 0 < v.txCap
    requires TryOnce(u, v, n, slack).fellBack
    ensures !Conserved(u, TryOnce(u, v, n, slack).view)
  {
    var started, reclaimed := KernelMoves(v, slack.before), Reclaimed(v, slack);
    KernelMovesConserve(v, slack.before);
    ReclaimConserves(u, started);
    PlaceSizes(u, reclaimed);
    AttemptShape(u, v, n, slack);
    var inHand, addrs := AfterAlloc(reclaimed, n), Allocated(u, reclaimed, n);
    var ready := KernelMoves(inHand, slack.between);
    KernelMovesConserve(inHand, slack.between);
    EverywhereSize(inHand);
    EverywhereSize(ready);
    PushShape(ready, addrs, true);
    hide Everywhere, FrameList, KernelMoves, PushOrReturn, Allocated, Reclaim, Room;
    TooManyAfterPush(u, ready, addrs, |reclaimed.free|);
    if Conserved(u, TryOnce(u, v, n, slack).view) {
      PlaceSizes(u, TryOnce(u, v, n, slack).view);
    }
  }

  /** More addresses in hand than were taken from the `k` free ones. */
  lemma TooManyAfterPush(u: Umem, ready: View, addrs: seq<u64>, k: nat)
    requires k < |addrs| && Total(ready) + k == u.count <= ready.limit && ready.free == [] && 0 < ready.txCap
    ensures Total(PushOrReturn(ready, addrs, true).view) > u.count
  {
    PushShape(ready, addrs, true);
    hide PushOrReturn;
  }

  function Total(v: View): nat { |v.free| + |v.tx| + |v.kernel| + |v.comp| }

  lemma EverywhereSize(v: View)
    ensures |Everywhere(v)| == Total(v)
  {
  }

  lemma AllocConserves(u: Umem, v: View, n: nat)
    requires u.Valid() && Conserved(u, v) && n <= |v.free|
    ensures Allocated(u, v, n) == v.free[..n]
    ensures Everywhere(AfterAlloc(v, n)) + multiset(v.free[..n]) == multiset(FrameList(u))
  {
    assert v.free == v.free[..n] + v.free[n..];
  }

  lemma AllocatedDistinct(u: Umem, v: View, n: nat)
    requires u.Valid() && Conserved(u, v) && n <= |v.free|
    ensures Distinct(v.free[..n])
  {
    FramesDistinct(u);
    assert v.free == v.free[..n] + v.free[n..];
    CountsDistinct(v.free[..n], multiset(FrameList(u)));
  }

  /** Addresses in hand go to the TX ring, or all of them back to the free list. */
  lemma TxPushConserves(u: Umem, v: View, addrs: seq<u64>, pushed: nat)
    requires u.Valid() && pushed <= |addrs| && u.count <= v.limit
    requires Everywhere(v) + multiset(addrs) == multiset(FrameList(u))
    ensures var done := AfterTxPush(v, addrs, pushed);
            && (pushed == |addrs| ==> Conserved(u, done))
            && Accepted(done.free, done.limit, addrs) == |addrs|
            && (Conserved(u, AfterReturn(done, addrs)) <==> pushed == 0)
  {
    var all := multiset(FrameList(u));
    var done := AfterTxPush(v, addrs, pushed);
    assert |Everywhere(v)| + |addrs| == |all| == u.count;
    assert addrs[..|addrs|] == addrs;
    var returned := AfterReturn(done, addrs);
    assert Everywhere(returned) == all + multiset(addrs[..pushed]);
    if pushed > 0 {
      assert |Everywhere(returned)| == |all| + pushed;
    }
  }

  lemma EmptyAttempt(u: Umem, v: View, slack: Slack)
    requires u.Valid()
    ensures TryOnce(u, v, 0, slack).ok
  {
  }

  /** On the kernel's side of the TX ring an attempt puts only the frames it pushed; none that
      was there before is among those it had in hand and wrote to. */
  lemma AttemptPlaces(u: Umem, v: View, n: nat, slack: Slack, x: u64)
    requires u.Valid() && Conserved(u, v) && Clean(TryOnce(u, v, n, slack))
    requires var a := TryOnce(u, v, n, slack); x in a.view.tx || x in a.view.kernel
    ensures var a := TryOnce(u, v, n, slack);
            (a.ok && x in a.addrs) || (x !in a.addrs && (x in v.tx || x in v.kernel))
  {
    AttemptShape(u, v, n, slack);
    var ready, addrs := InHand(u, v, n, slack);
    PushShape(ready, addrs, false);
    FramesDistinct(u);
    hide FrameList, PushOrReturn, Reclaimed, TryOnce, Conserved, Everywhere;
    if !(PushOrReturn(ready, addrs, false).ok && x in addrs) {
      NotInHand(ready, addrs, multiset(FrameList(u)), x);
      assert x in multiset(v.tx) + multiset(v.kernel);
    }
  }

  lemma NotInHand(ready: View, addrs: seq<u64>, whole: multiset<u64>, x: u64)
    requires Everywhere(ready) + multiset(addrs) == whole && whole[x] <= 1
    requires var a := PushOrReturn(ready, addrs, false);
             Clean(a) && !(a.ok && x in addrs) && (x in a.view.tx || x in a.view.kernel)
    ensures x !in addrs && x in multiset(ready.tx) + multiset(ready.kernel)
  {
    PushShape(ready, addrs, false);
    hide PushOrReturn;
    assert addrs[..0] == [] && addrs[..|addrs|] == addrs;
    assert x in ready.tx || x in ready.kernel;
    assert Everywhere(ready)[x] >= multiset(ready.tx)[x] + multiset(ready.kernel)[x];
    assert multiset(addrs)[x] == 0;
  }

  /** How many descriptors an attempt pushes: as many as the ring has room for when it pushes. */
  lemma AttemptPushesWhatFits(u: Umem, v: View, n: nat, slack: Slack)
    requires u.Valid()
    ensures var a, ready := TryOnce(u, v, n, slack), KernelMoves(AfterAlloc(Reclaimed(v, slack), n), slack.between);
            && a.pushed == (if |ready.tx| >= ready.txCap then 0
                            else if ready.txCap - |ready.tx| < n then ready.txCap - |ready.tx| else n)
            && |ready.tx| <= |v.tx| && ready.txCap == v.txCap
            && (|v.tx| + n <= v.txCap ==> a.ok)
  {
    AttemptShape(u, v, n, slack);
    var r := Reclaimed(v, slack);
    KernelMovesConserve(v, slack.before);
    KernelMovesConserve(AfterAlloc(r, n), slack.between);
    PushShape(KernelMoves(AfterAlloc(r, n), slack.between), Allocated(u, r, n), |r.free| < n);
    BumpedFrames(u, r.nextFrame, n - Min(n, |r.free|));
    hide Everywhere, KernelMoves, PushOrReturn, Bumped;
  }

  /** The addresses of the bump allocator go round the frames. */
  lemma {:induction false} BumpedGoRound(u: Umem, next: u64, n: nat, i: nat)
    requires u.Valid() && i < n
    ensures |Bumped(u, next, n)| == n
    ensures Bumped(u, next, n)[i] == (next + i) % 0x1_0000_0000_0000_0000 % u.count * u.size
    decreases n
  {
    BumpedFrames(u, next, n - 1);
    if i < n - 1 {
      BumpedGoRound(u, next, n - 1, i);
    }
  }

  /** What goes where when an attempt starts: completions, oldest first and 64 at most, to the back
      of the free list as far as it takes them; then frames from its front. */
  lemma ReclaimMeaning(v: View)
    ensures var r := Reclaim(v);
            var k := if |v.comp| < 64 then |v.comp| else 64;
            var room := if v.limit > |v.free| then v.limit - |v.free| else 0;
            && r.comp == v.comp[k..]
            && r.free == v.free + v.comp[..if room < k then room else k]
            && r == v.(free := r.free, comp := r.comp)
  {
    assert v.comp[..Min(64, |v.comp|)][..Accepted(v.free, v.limit, v.comp[..Min(64, |v.comp|)])]
        == v.comp[..Accepted(v.free, v.limit, v.comp[..Min(64, |v.comp|)])];
  }

  // ---------- The condition before the call ----------

  /** What a caller can check before a send: the free list and the completions it is about to
      reclaim suffice, and a batch of more than one packet fits the TX ring as it stands. */
  predicate Ready(v: View, n: nat) {
    n <= |v.free| + Min(RECLAIM_BATCH, |v.comp|) && (n <= 1 || |v.tx| + n <= v.txCap)
  }

  /** Whatever the kernel does, a ready attempt is clean, and ready to be tried again if it fails. */
  lemma ReadyAttempt(u: Umem, v: View, n: nat, slack: Slack)
    requires u.Valid() && Conserved(u, v) && Ready(v, n)
    ensures var a := TryOnce(u, v, n, slack);
            Clean(a) && (!a.ok ==> Ready(a.view, n))
  {
    EnoughFree(u, v, slack);
    var ready, addrs := InHand(u, v, n, slack);
    assert |Everywhere(ready) + multiset(addrs)| == |multiset(FrameList(u))| == u.count;
    EverywhereSize(ready);
    hide Everywhere, FrameList, Reclaimed, TryOnce, PushOrReturn, Conserved, Total;
    ReadyPush(u, ready, addrs);
  }

  lemma ReadyPush(u: Umem, ready: View, addrs: seq<u64>)
    requires Total(ready) + |addrs| == u.count <= ready.limit
    requires |addrs| <= 1 || |ready.tx| + |addrs| <= ready.txCap
    ensures var a := PushOrReturn(ready, addrs, false);
            Clean(a) && (!a.ok ==> |addrs| <= 1 && |addrs| <= |a.view.free|)
  {
    PushShape(ready, addrs, false);
    hide PushOrReturn;
  }

  lemma EnoughFree(u: Umem, v: View, slack: Slack)
    requires u.Valid() && Conserved(u, v)
    ensures |Reclaimed(v, slack).free| >= |v.free| + Min(RECLAIM_BATCH, |v.comp|)
  {
    KernelMovesConserve(v, slack.before);
    ReclaimConserves(u, KernelMoves(v, slack.before));
  }

  /** A batch that is not ready breaks conservation under some schedule of at most one move. */
  lemma UnreadyAttempt(u: Umem, v: View, n: nat) returns (slack: Slack)
    requires u.Valid() && Conserved(u, v) && 0 < v.txCap && |v.tx| <= v.txCap && !Ready(v, n)
    ensures !Clean(TryOnce(u, v, n, slack)) && slack.between == []
  {
    var moves := if n <= |v.free| + Min(RECLAIM_BATCH, |v.comp|) && |v.tx| == v.txCap then [Take] else [];
    slack := Slack(moves, []);
    var started, reclaimed := KernelMoves(v, moves), Reclaimed(v, slack);
    StillKernel(v);
    assert moves == [Take] ==> moves[..0] == [] && started == KernelMove(v, Take);
    KernelMovesConserve(v, moves);
    ReclaimConserves(u, started);
    AttemptShape(u, v, n, slack);
    var inHand, addrs := AfterAlloc(reclaimed, n), Allocated(u, reclaimed, n);
    StillKernel(inHand);
    PushShape(inHand, addrs, |reclaimed.free| < n);
    hide Everywhere, Conserved, KernelMoves, PushOrReturn, Allocated, Reclaim, KernelKeeps;
  }

  /** Exactly when an attempt conserves frames whatever the kernel does meanwhile. */
  lemma AttemptConservesWhenReady(u: Umem, v: View, n: nat)
    requires u.Valid() && Conserved(u, v) && 0 < v.txCap && |v.tx| <= v.txCap
    ensures (forall slack :: Conserved(u, TryOnce(u, v, n, slack).view)) <==> Ready(v, n)
  {
    hide Conserved, TryOnce, Ready;
    forall slack
      ensures Conserved(u, TryOnce(u, v, n, slack).view) <==> Clean(TryOnce(u, v, n, slack))
      ensures Ready(v, n) ==> Clean(TryOnce(u, v, n, slack))
    {
      AttemptConserves(u, v, n, slack);
      if Ready(v, n) {
        ReadyAttempt(u, v, n, slack);
      }
    }
    if !Ready(v, n) {
      var slack := UnreadyAttempt(u, v, n);
      assert !Conserved(u, TryOnce(u, v, n, slack).view);
    }
  }

  // ---------- Sends ----------

  lemma SendFromUnfolds(u: Umem, v: View, n: nat, slack: nat -> Slack, attempt: nat)
    requires u.Valid() && attempt <= MAX_RETRIES
    ensures var a := TryOnce(u, v, n, slack(attempt));
            SendFrom(u, v, n, slack, attempt)
            == if a.ok || attempt == MAX_RETRIES then LastAttempt(a)
               else AfterFailure(a, SendFrom(u, a.view, n, slack, attempt + 1))
  {
  }

  /** One send: nine attempts at most, and backpressure is counted once per failed attempt. */
  lemma {:induction false} SendCounts(u: Umem, v: View, n: nat, slack: nat -> Slack, attempt: nat)
    requires u.Valid() && attempt <= MAX_RETRIES
    ensures Counted(SendFrom(u, v, n, slack, attempt), 9 - attempt)
    ensures n == 0 ==> SendFrom(u, v, n, slack, attempt).ok && SendFrom(u, v, n, slack, attempt).attempts == 1
    decreases MAX_RETRIES - attempt
  {
    hide TryOnce, SendFrom, Clean;
    var a := TryOnce(u, v, n, slack(attempt));
    SendFromUnfolds(u, v, n, slack, attempt);
    if n == 0 {
      EmptyAttempt(u, v, slack(attempt));
    }
    if !a.ok && attempt < MAX_RETRIES {
      SendCounts(u, a.view, n, slack, attempt + 1);
    }
  }

  /** The counters of a send that had `most` attempts left. */
  predicate Counted(o: Outcome, most: nat) {
    && 1 <= o.attempts <= most
    && o.retries == o.attempts - 1
    && o.backpressure == o.retries + (if o.ok then 0 else 1)
    && (!o.ok ==> o.attempts == most)
  }

  /** Frames conserved and none dropped; on success the TX ring received exactly `n` pairwise
      distinct frames, in order, and on failure none. */
  ghost predicate Delivered(u: Umem, v: View, n: nat, o: Outcome)
    requires u.Valid()
  {
    && Conserved(u, o.view)
    && o.dropped == 0
    && o.view.sent == v.sent + o.addrs
    && Distinct(o.addrs)
    && |o.addrs| == (if o.ok then n else 0)
    && (o.ok ==> n <= |o.view.tx| && o.view.tx[|o.view.tx| - n..] == o.addrs)
  }

  lemma LastAttemptDelivers(u: Umem, v: View, n: nat, slack: Slack)
    requires u.Valid() && Conserved(u, v) && Clean(TryOnce(u, v, n, slack))
    ensures var a := TryOnce(u, v, n, slack);
            Delivered(u, v, n, LastAttempt(a)) && a.dropped == 0 && (!a.ok ==> a.view.sent == v.sent)
  {
    OwnFramesConserve(u, v, n, slack);
    AttemptShape(u, v, n, slack);
    hide TryOnce, Conserved;
    var a := TryOnce(u, v, n, slack);
    assert a.addrs[..n] == a.addrs;
    assert v.sent + a.addrs[..0] == v.sent;
    assert v.sent + [] == v.sent;
  }

  /** What a send of clean attempts does. */
  lemma {:induction false} CleanSend(u: Umem, v: View, n: nat, slack: nat -> Slack, attempt: nat)
    requires u.Valid() && attempt <= MAX_RETRIES && Conserved(u, v)
    requires SendFrom(u, v, n, slack, attempt).clean
    ensures Delivered(u, v, n, SendFrom(u, v, n, slack, attempt))
    decreases MAX_RETRIES - attempt
  {
    hide TryOnce, Conserved;
    var a := TryOnce(u, v, n, slack(attempt));
    LastAttemptDelivers(u, v, n, slack(attempt));
    if !a.ok && attempt < MAX_RETRIES {
      CleanSend(u, a.view, n, slack, attempt + 1);
    }
  }

  /** A ready send is clean under every schedule: the condition survives a failed attempt. */
  lemma {:induction false} ReadyIsClean(u: Umem, v: View, n: nat, slack: nat -> Slack, attempt: nat)
    requires u.Valid() && attempt <= MAX_RETRIES && Conserved(u, v) && Ready(v, n)
    ensures SendFrom(u, v, n, slack, attempt).clean
    decreases MAX_RETRIES - attempt
  {
    hide TryOnce, Conserved, Ready;
    var a := TryOnce(u, v, n, slack(attempt));
    ReadyAttempt(u, v, n, slack(attempt));
    LastAttemptDelivers(u, v, n, slack(attempt));
    if !a.ok && attempt < MAX_RETRIES {
      ReadyIsClean(u, a.view, n, slack, attempt + 1);
    }
  }

  /** What a ready send does, whatever the kernel does meanwhile. */
  lemma ReadySend(u: Umem, v: View, n: nat, slack: nat -> Slack)
    requires u.Valid() && Conserved(u, v) && Ready(v, n)
    ensures Delivered(u, v, n, Send(u, v, n, slack))
  {
    hide Conserved, Ready;
    ReadyIsClean(u, v, n, slack, 0);
    CleanSend(u, v, n, slack, 0);
  }

  /** Frames are conserved after every attempt of a send. */
  ghost predicate ConservesThroughout(u: Umem, v: View, n: nat, slack: nat -> Slack, attempt: nat)
    requires u.Valid() && attempt <= MAX_RETRIES
    decreases MAX_RETRIES - attempt
  {
    var a := TryOnce(u, v, n, slack(attempt));
    && Conserved(u, a.view)
    && (a.ok || attempt == MAX_RETRIES || ConservesThroughout(u, a.view, n, slack, attempt + 1))
  }

  lemma {:induction false} CleanConservesThroughout(u: Umem, v: View, n: nat, slack: nat -> Slack, attempt: nat)
    requires u.Valid() && attempt <= MAX_RETRIES && Conserved(u, v) && 0 < v.txCap
    ensures SendFrom(u, v, n, slack, attempt).clean <==> ConservesThroughout(u, v, n, slack, attempt)
    decreases MAX_RETRIES - attempt
  {
    hide TryOnce, Conserved, Clean;
    var a := TryOnce(u, v, n, slack(attempt));
    AttemptConserves(u, v, n, slack(attempt));
    AttemptShape(u, v, n, slack(attempt));
    if Conserved(u, a.view) && !a.ok && attempt < MAX_RETRIES {
      CleanConservesThroughout(u, a.view, n, slack, attempt + 1);
    }
  }

  /** Nothing can leave: the TX ring is full and there are more addresses than frames. */
  predicate Stuck(u: Umem, v: View) {
    && 0 < v.txCap == |v.tx| && u.count < Total(v) && u.count <= v.limit && |v.free| <= v.limit
  }

  /** While the kernel is still, an attempt to send something fails and leaves it at that. */
  lemma StuckAttempt(u: Umem, v: View, n: nat)
    requires u.Valid() && 0 < n && Stuck(u, v)
    ensures var a := TryOnce(u, v, n, Slack([], [])); !a.ok && Stuck(u, a.view)
  {
    StillKernel(v);
    var r := Reclaim(v);
    assert Stuck(u, r);
    var inHand, addrs := AfterAlloc(r, n), Allocated(u, r, n);
    BumpedFrames(u, r.nextFrame, n - Min(n, |r.free|));
    StillKernel(inHand);
    hide KernelMoves, Bumped, Reclaim;
    PushShape(inHand, addrs, |r.free| < n);
    hide PushOrReturn;
  }

  lemma StuckTotal(u: Umem, v: View)
    requires Stuck(u, v)
    ensures Total(v) > u.count
  {
  }

  lemma {:induction false} StuckSend(u: Umem, v: View, n: nat, slack: nat -> Slack, attempt: nat)
    requires u.Valid() && attempt <= MAX_RETRIES && 0 < n && Stuck(u, v)
    requires forall i :: attempt <= i ==> slack(i) == Slack([], [])
    ensures Total(SendFrom(u, v, n, slack, attempt).view) > u.count
    decreases MAX_RETRIES - attempt
  {
    hide TryOnce, SendFrom, Stuck;
    StuckAttempt(u, v, n);
    SendFromUnfolds(u, v, n, slack, attempt);
    assert slack(attempt) == Slack([], []);
    if attempt < MAX_RETRIES {
      StuckSend(u, TryOnce(u, v, n, slack(attempt)).view, n, slack, attempt + 1);
    } else {
      assert Stuck(u, TryOnce(u, v, n, slack(attempt)).view);
      StuckTotal(u, TryOnce(u, v, n, slack(attempt)).view);
    }
  }

  /** The attempt of `UnreadyAttempt` either sends too much or gets stuck. */
  lemma UncleanAttempt(u: Umem, v: View, n: nat, slack: Slack)
    requires u.Valid() && Conserved(u, v) && 0 < v.txCap && |v.tx| <= v.txCap && slack.between == []
    requires !Clean(TryOnce(u, v, n, slack))
    ensures var a := TryOnce(u, v, n, slack);
            0 < n && !Conserved(u, a.view) && (!a.ok ==> Stuck(u, a.view))
  {
    AttemptConserves(u, v, n, slack);
    var started, r := KernelMoves(v, slack.before), Reclaimed(v, slack);
    KernelMovesConserve(v, slack.before);
    ReclaimConserves(u, started);
    PlaceSizes(u, r);
    AttemptShape(u, v, n, slack);
    var inHand, addrs := AfterAlloc(r, n), Allocated(u, r, n);
    StillKernel(inHand);
    hide Everywhere, Conserved, FrameList, KernelMoves, PushOrReturn, Allocated, Reclaim, KernelKeeps, Stuck;
    if !TryOnce(u, v, n, slack).ok {
      StuckPush(u, inHand, addrs, Min(n, |r.free|), |r.free| < n);
    }
  }

  /** Of the addresses in hand `k` were free ones. */
  lemma StuckPush(u: Umem, inHand: View, addrs: seq<u64>, k: nat, fellBack: bool)
    requires k <= |addrs| && Total(inHand) + k == u.count <= inHand.limit
    requires fellBack <==> k < |addrs|
    requires fellBack ==> inHand.free == []
    requires 0 < inHand.txCap && |inHand.tx| <= inHand.txCap
    requires var a := PushOrReturn(inHand, addrs, fellBack); !a.ok && !Clean(a)
    ensures Stuck(u, PushOrReturn(inHand, addrs, fellBack).view)
  {
    PushShape(inHand, addrs, fellBack);
    hide PushOrReturn;
  }

  /** Exactly when a send ends with all frames conserved under every schedule of the kernel, and
      exactly when it conserves them after each of its attempts: when the batch is ready. */
  lemma SendConservesWhenReady(u: Umem, v: View, n: nat)
    requires u.Valid() && Conserved(u, v) && 0 < v.txCap && |v.tx| <= v.txCap
    ensures (forall slack: nat -> Slack :: Conserved(u, Send(u, v, n, slack).view)) <==> Ready(v, n)
    ensures (forall slack: nat -> Slack :: ConservesThroughout(u, v, n, slack, 0)) <==> Ready(v, n)
  {
    hide Conserved, Ready, Send, ConservesThroughout;
    if Ready(v, n) {
      forall slack: nat -> Slack
        ensures ConservesThroughout(u, v, n, slack, 0) && Conserved(u, Send(u, v, n, slack).view)
      {
        ReadySendConserves(u, v, n, slack);
      }
    } else {
      var slack := UnreadySend(u, v, n);
      assert !ConservesThroughout(u, v, n, slack, 0) && !Conserved(u, Send(u, v, n, slack).view);
    }
  }

  lemma ReadySendConserves(u: Umem, v: View, n: nat, slack: nat -> Slack)
    requires u.Valid() && Conserved(u, v) && 0 < v.txCap && Ready(v, n)
    ensures ConservesThroughout(u, v, n, slack, 0) && Conserved(u, Send(u, v, n, slack).view)
  {
    hide Conserved, Ready, ConservesThroughout;
    ReadyIsClean(u, v, n, slack, 0);
    CleanConservesThroughout(u, v, n, slack, 0);
    ReadySend(u, v, n, slack);
  }

  /** A send that is not ready ends with a frame in two places under some schedule. */
  lemma UnreadySend(u: Umem, v: View, n: nat) returns (slack: nat -> Slack)
    requires u.Valid() && Conserved(u, v) && 0 < v.txCap && |v.tx| <= v.txCap && !Ready(v, n)
    ensures !ConservesThroughout(u, v, n, slack, 0) && !Conserved(u, Send(u, v, n, slack).view)
  {
    var bad := UnreadyAttempt(u, v, n);
    slack := i => if i == 0 then bad else Slack([], []);
    UncleanAttempt(u, v, n, bad);
    hide TryOnce, Stuck, Clean, Ready, Conserved, Total, SendFrom;
    SendFromUnfolds(u, v, n, slack, 0);
    var a := TryOnce(u, v, n, slack(0));
    if !a.ok {
      StuckSend(u, a.view, n, slack, 1);
      TooManyToConserve(u, SendFrom(u, a.view, n, slack, 1).view);
    }
  }

  lemma TooManyToConserve(u: Umem, v: View)
    requires u.Valid() && Total(v) > u.count
    ensures !Conserved(u, v)
  {
    if Conserved(u, v) {
      PlaceSizes(u, v);
    }
  }

  /** A send of at most one packet can only stop being clean by falling back. */
  lemma SinglePacketAttempt(u: Umem, v: View, n: nat, slack: Slack)
    requires u.Valid() && n <= 1
    ensures Clean(TryOnce(u, v, n, slack)) <==> !TryOnce(u, v, n, slack).fellBack
  {
    AttemptShape(u, v, n, slack);
  }

  /** A batch that fits the TX ring as it stands is sent by the first attempt. */
  lemma FittingBatchIsSent(u: Umem, v: View, n: nat, slack: nat -> Slack)
    requires u.Valid() && |v.tx| + n <= v.txCap
    ensures var o := Send(u, v, n, slack); o.ok && o.attempts == 1 && o.retries == 0 && o.backpressure == 0
  {
    AttemptPushesWhatFits(u, v, n, slack(0));
    SendFromUnfolds(u, v, n, slack, 0);
    hide TryOnce, SendFrom, Clean;
  }

  /** A send succeeds with the first attempt that pushes everything, and fails after nine that do
      not. */
  lemma SendStops(u: Umem, v: View, n: nat, slack: nat -> Slack, attempt: nat)
    requires u.Valid() && attempt <= MAX_RETRIES
    ensures var o := SendFrom(u, v, n, slack, attempt);
            && (TryOnce(u, v, n, slack(attempt)).pushed == n ==> o.ok && o.attempts == 1)
            && (TryOnce(u, v, n, slack(attempt)).pushed < n && attempt < MAX_RETRIES ==>
                  var rest := SendFrom(u, TryOnce(u, v, n, slack(attempt)).view, n, slack, attempt + 1);
                  o.ok == rest.ok && o.view == rest.view && o.addrs == rest.addrs && o.attempts == rest.attempts + 1)
            && (TryOnce(u, v, n, slack(attempt)).pushed < n && attempt == MAX_RETRIES ==> !o.ok)
  {
    AttemptShape(u, v, n, slack(attempt));
    SendFromUnfolds(u, v, n, slack, attempt);
    hide TryOnce, SendFrom, Clean;
  }

  // ---------- Runs ----------

  /** A history of the socket: batches sent, and kernel activity between them. */
  datatype Event = Batch(n: nat, slack: nat -> Slack) | KernelRuns(moves: seq<Move>)

  datatype History = History(view: View, dropped: nat)

  function Replay(u: Umem, v: View, es: seq<Event>): History
    requires u.Valid()
    decreases |es|
  {
    if es == [] then History(v, 0)
    else
      var h := Replay(u, v, es[..|es| - 1]);
      match es[|es| - 1]
      case Batch(n, slack) =>
        var o := Send(u, h.view, n, slack);
        History(o.view, h.dropped + o.dropped)
      case KernelRuns(ms) => h.(view := KernelMoves(h.view, ms))
  }

  /** Every batch is ready when it is sent. */
  predicate AllReady(u: Umem, v: View, es: seq<Event>)
    requires u.Valid()
    decreases |es|
  {
    es != [] ==>
      && AllReady(u, v, es[..|es| - 1])
      && (es[|es| - 1].Batch? ==> Ready(Replay(u, v, es[..|es| - 1]).view, es[|es| - 1].n))
  }

  lemma {:induction false} SendKeepsBounds(u: Umem, v: View, n: nat, slack: nat -> Slack, attempt: nat)
    requires u.Valid() && attempt <= MAX_RETRIES && |v.tx| <= v.txCap
    ensures var w := SendFrom(u, v, n, slack, attempt).view;
            |w.tx| <= w.txCap && w.txCap == v.txCap
    decreases MAX_RETRIES - attempt
  {
    hide TryOnce, Clean;
    AttemptShape(u, v, n, slack(attempt));
    var a := TryOnce(u, v, n, slack(attempt));
    if !a.ok && attempt < MAX_RETRIES {
      SendKeepsBounds(u, a.view, n, slack, attempt + 1);
    }
  }

  lemma SendBounds(u: Umem, v: View, n: nat, slack: nat -> Slack)
    requires u.Valid() && |v.tx| <= v.txCap
    ensures var w := Send(u, v, n, slack).view; |w.tx| <= w.txCap && w.txCap == v.txCap
  {
    SendKeepsBounds(u, v, n, slack, 0);
  }

  lemma KernelRunConserves(u: Umem, v: View, ms: seq<Move>)
    requires u.Valid() && Conserved(u, v)
    ensures var w := KernelMoves(v, ms); Conserved(u, w) && |w.tx| <= |v.tx| && w.txCap == v.txCap
  {
    KernelMovesConserve(v, ms);
    hide Everywhere, KernelMoves;
  }

  /** Whole runs from the prefilled list in which each batch is ready when it is sent: every
      frame stays in exactly one place, and no returned frame is ever refused by the free list.
      In the state reached, `SendConservesWhenReady` applies to the next batch. */
  lemma {:induction false} RunConserves(u: Umem, limit: nat, txCap: nat, compCap: nat, es: seq<Event>)
    requires u.Valid() && u.count <= limit
    requires AllReady(u, Prefilled(u, limit, txCap, compCap), es)
    ensures var h := Replay(u, Prefilled(u, limit, txCap, compCap), es);
            && Conserved(u, h.view) && h.dropped == 0
            && |h.view.tx| <= h.view.txCap && h.view.txCap == txCap
    decreases |es|
  {
    hide Ready, Conserved, Send, KernelMoves;
    if es == [] {
      PrefilledConserved(u, limit, txCap, compCap);
    } else {
      RunConserves(u, limit, txCap, compCap, es[..|es| - 1]);
      var h := Replay(u, Prefilled(u, limit, txCap, compCap), es[..|es| - 1]);
      match es[|es| - 1]
      case Batch(n, slack) =>
        ReadySend(u, h.view, n, slack);
        SendBounds(u, h.view, n, slack);
      case KernelRuns(ms) => KernelRunConserves(u, h.view, ms);
    }
  }

  // ---------- Sends that break conservation ----------

  /** Three packets for a TX ring of two slots, with a kernel that does nothing: when the send has
      given up, two frames are in the TX ring and in the free list as well. */
  lemma PartialPushDuplicates(u: Umem, slack: nat -> Slack)
    requires u == Umem(4, 2048) && forall i :: slack(i) == Slack([], [])
    ensures var v := Prefilled(u, 4, 2, 2);
            var o := Send(u, v, 3, slack);
            && Conserved(u, v) && !Ready(v, 3)
            && !o.ok && o.view.tx == [0, 2048] && multiset(o.view.free) == multiset{0, 2048, 4096, 6144}
            && !Conserved(u, o.view)
  {
    var v := Prefilled(u, 4, 2, 2);
    PrefilledConserved(u, 4, 2, 2);
    assert v.free == [0, 2048, 4096, 6144];
    hide Bumped, Everywhere, FrameList, Conserved, TryOnce, Prefilled, SendFrom;
    ThreeIntoTwo(u, v);
    SendFromUnfolds(u, v, 3, slack, 0);
    var a := TryOnce(u, v, 3, slack(0));
    ThreeIntoNone(u, a.view, 3, slack, 1);
    var o := Send(u, v, 3, slack);
    TooManyToConserve(u, o.view);
  }

  /** A failed attempt with the kernel still moves the frames it had in hand to the end of the free
      list, and those pushed are in the TX ring as well. */
  lemma StillFailure(u: Umem, v: View, n: nat)
    requires u.Valid() && v.comp == [] && n <= |v.free| <= v.limit && Room(v, n) < n
    ensures var a := TryOnce(u, v, n, Slack([], []));
            && !a.ok && a.view.free == v.free[n..] + v.free[..n] && a.view.tx == v.tx + v.free[..Room(v, n)]
            && a.view.limit == v.limit && a.view.txCap == v.txCap && a.view.comp == []
  {
    StillAttempt(u, v, n);
    var inHand, addrs := AfterAlloc(v, n), Allocated(u, v, n);
    assert Bumped(u, v.nextFrame, 0) == [];
    assert addrs == v.free[..n];
    PushShape(inHand, addrs, false);
    hide PushOrReturn, Bumped, TryOnce, Allocated;
    assert addrs[..n] == addrs && addrs[..Room(v, n)] == v.free[..Room(v, n)];
  }

  lemma ThreeIntoTwo(u: Umem, v: View)
    requires u.Valid() && v.free == [0, 2048, 4096, 6144] && v.limit == 4 && v.tx == [] && v.txCap == 2 && v.comp == []
    ensures var a := TryOnce(u, v, 3, Slack([], [])); !a.ok && TwoInBothPlaces(a.view)
  {
    hide TryOnce;
    StillFailure(u, v, 3);
    Rotated(v.free, 3);
    assert v.free[..2] == [0, 2048];
  }

  lemma Rotated(s: seq<u64>, n: nat)
    requires n <= |s|
    ensures multiset(s[n..] + s[..n]) == multiset(s) && |s[n..] + s[..n]| == |s|
  {
    assert s == s[..n] + s[n..];
  }

  predicate TwoInBothPlaces(v: View) {
    && v.tx == [0, 2048] && multiset(v.free) == multiset{0, 2048, 4096, 6144} && |v.free| == 4
    && v.limit == 4 && v.txCap == 2 && v.comp == []
  }

  /** Further attempts only move the free list round. */
  lemma {:induction false} ThreeIntoNone(u: Umem, v: View, n: nat, slack: nat -> Slack, attempt: nat)
    requires u.Valid() && attempt <= MAX_RETRIES && TwoInBothPlaces(v) && n == 3
    requires forall i :: slack(i) == Slack([], [])
    ensures var o := SendFrom(u, v, n, slack, attempt); !o.ok && TwoInBothPlaces(o.view)
    decreases MAX_RETRIES - attempt
  {
    hide TryOnce, SendFrom, TwoInBothPlaces;
    ReturnsRound(u, v);
    SendFromUnfolds(u, v, n, slack, attempt);
    assert slack(attempt) == Slack([], []);
    var a := TryOnce(u, v, n, slack(attempt));
    if attempt < MAX_RETRIES {
      ThreeIntoNone(u, a.view, n, slack, attempt + 1);
    }
  }

  lemma ReturnsRound(u: Umem, v: View)
    requires u.Valid() && TwoInBothPlaces(v)
    ensures var a := TryOnce(u, v, 3, Slack([], [])); !a.ok && TwoInBothPlaces(a.view)
  {
    hide TryOnce;
    StillFailure(u, v, 3);
    Rotated(v.free, 3);
    assert v.free[..0] == [];
  }

  /** An attempt with the kernel still and nothing completed. */
  lemma StillAttempt(u: Umem, v: View, n: nat)
    requires u.Valid() && v.comp == []
    ensures TryOnce(u, v, n, Slack([], [])) == PushOrReturn(AfterAlloc(v, n), Allocated(u, v, n), |v.free| < n)
  {
    StillKernel(v);
    NothingCompleted(v);
    StillKernel(AfterAlloc(v, n));
    hide PushOrReturn, KernelMoves, Reclaim;
  }

  lemma StillKernel(v: View)
    ensures KernelMoves(v, []) == v
  {
  }

  lemma NothingCompleted(v: View)
    requires v.comp == []
    ensures Reclaim(v) == v
  {
  }

  /** With the free list empty and nothing completed, the bump allocator hands out a frame that
      the kernel still holds: of two packets sent one after the other, both are in the only
      frame, once with the kernel and once in the TX ring. */
  lemma FallbackReusesHeldFrame(u: Umem)
    requires u == Umem(1, 2048)
    ensures var first := TryOnce(u, Prefilled(u, 1, 2, 2), 1, Slack([], []));
            var v := KernelMove(first.view, Take);
            var second := TryOnce(u, v, 1, Slack([], []));
            && first.ok && Conserved(u, v) && v.kernel == [0] && !Ready(v, 1)
            && second.ok && second.view.tx == [0] && second.view.kernel == [0]
            && !Conserved(u, second.view)
  {
    var start := Prefilled(u, 1, 2, 2);
    PrefilledConserved(u, 1, 2, 2);
    assert start.free == [0];
    var first := OneFrame(u, start);
    AttemptConserves(u, start, 1, Slack([], []));
    var v := KernelMove(first.view, Take);
    KernelMoveConserves(first.view, Take);
    var second := OneFrame(u, v);
    AttemptConserves(u, v, 1, Slack([], []));
    hide TryOnce, Everywhere, FrameList;
  }

  /** One packet, with the kernel still and nothing completed. */
  lemma OneFrame(u: Umem, v: View) returns (a: Attempt)
    requires u == Umem(1, 2048) && v.comp == [] && |v.tx| < v.txCap
    ensures a == TryOnce(u, v, 1, Slack([], []))
    ensures a.ok && a.pushed == 1 && |a.addrs| == 1 && (a.fellBack <==> v.free == [])
    ensures a.addrs[0] == if v.free == [] then 0 else v.free[0]
    ensures a.view.tx == v.tx + a.addrs && a.view.kernel == v.kernel && a.view.comp == []
    ensures a.view.free == if v.free == [] then [] else v.free[1..]
    ensures a.view.txCap == v.txCap
  {
    var inHand, addrs := AfterAlloc(v, 1), Allocated(u, v, 1);
    assert Bumped(u, v.nextFrame, 0) == [];
    assert |addrs| == 1;
    StillAttempt(u, v, 1);
    PushShape(inHand, addrs, v.free == []);
    a := TryOnce(u, v, 1, Slack([], []));
    hide PushOrReturn, TryOnce;
  }
}
