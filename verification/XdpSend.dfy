/** `RealSocket` of `afxdp/src/socket.rs`: transmission out of UMEM frames, with reclaiming,
    bounded retries and backpressure counters. The kernel is a second actor whose moves are
    given as a schedule; each ring operation is one step. */
module XdpSend {
  import opened Bits
  import opened FrameFlow
  import Circular
  import Rings
  import FreeLists

  /** The first min(len, size) bytes of the packet at (offset, length), byte by byte. */
  ghost predicate IsPacket(data: seq<byte>, buf: seq<byte>, at: (nat, nat), size: nat)
    requires at.0 + at.1 <= |buf|
  {
    |data| == Min(at.1, size) && forall k :: 0 <= k < |data| ==> data[k] == buf[at.0 + k]
  }

  /** Bytes a packet puts into its frame. */
  function Prefix(buf: seq<byte>, at: (nat, nat), size: nat): (data: seq<byte>)
    requires at.0 + at.1 <= |buf|
    ensures IsPacket(data, buf, at, size)
  {
    buf[at.0..at.0 + Min(at.1, size)]
  }

  lemma PacketIsPrefix(data: seq<byte>, buf: seq<byte>, at: (nat, nat), size: nat)
    requires at.0 + at.1 <= |buf|
    ensures IsPacket(data, buf, at, size) <==> data == Prefix(buf, at, size)
  {
  }

  ghost predicate InBounds(buf: seq<byte>, offsets: seq<(nat, nat)>) {
    forall i :: 0 <= i < |offsets| ==> offsets[i].0 + offsets[i].1 <= |buf|
  }

  lemma FramesApart(u: Umem, a: u64, b: u64)
    requires u.Valid() && u.IsFrame(a) && u.IsFrame(b) && a != b
    ensures a + u.size <= b || b + u.size <= a
  {
    assert a == a / u.size * u.size && b == b / u.size * u.size;
    if a / u.size > b / u.size {
      MulAtLeast(a / u.size - b / u.size, u.size, a / u.size, b / u.size);
    } else if b / u.size > a / u.size {
      MulAtLeast(b / u.size - a / u.size, u.size, b / u.size, a / u.size);
    }
  }

  lemma FrameInside(u: Umem, a: u64)
    requires u.Valid() && u.IsFrame(a)
    ensures a + u.size <= u.count * u.size
  {
    assert a == a / u.size * u.size;
    if a / u.size + 1 < u.count {
      MulAtLeast(u.count - (a / u.size + 1), u.size, u.count, a / u.size + 1);
    }
  }

  class RealSocket {
    const u: Umem
    const umem: array<byte>
    const free: FreeLists.FreeList
    const tx: Rings.Ring
    const comp: Rings.Ring
    /** Descriptors the kernel has taken and not completed. */
    var kernel: seq<u64>
    var nextFrame: u64
    var retryCount: nat
    var backpressureCount: nat
    var freePushDrop: nat
    ghost var sent: seq<u64>
    /** The bytes each frame was last sent with. */
    ghost var held: map<u64, seq<byte>>

    ghost predicate Separate()
      reads this
    {
      && tx != comp
      && tx.desc != comp.desc && tx.desc != free.buf && comp.desc != free.buf
      && umem as object != tx.desc && umem as object != comp.desc && umem as object != free.buf
    }

    ghost predicate Valid()
      reads this, free, free.buf, tx, tx.desc, comp, comp.desc
    {
      && Separate()
      && u.Valid() && u.count * u.size <= umem.Length
      && free.Guarded() && tx.Valid() && comp.Valid()
      && InUmem(u, View())
    }

    /** Every frame is in one place, and each one the kernel can read holds the bytes of the
        packet it was sent for. */
    ghost predicate Sound()
      requires Valid()
      reads this, umem, free, free.buf, tx, tx.desc, comp, comp.desc
    {
      Conserved(u, View()) && Intact(u, View(), umem[..], held)
    }

    /** Where every frame is. */
    ghost function View(): View
      requires free.Guarded() && tx.Valid() && comp.Valid()
      reads this, free, free.buf, tx, tx.desc, comp, comp.desc
    {
      FrameFlow.View(
        free.Contents(), free.buf.Length - free.headroom,
        tx.Contents(), tx.desc.Length,
        kernel,
        comp.Contents(), comp.desc.Length,
        nextFrame, sent)
    }

    /** The prefill loop of `RealSocket::new`. */
    static method PrefilledList(u: Umem, configured: Option<nat>) returns (list: FreeLists.FreeList)
      requires u.Valid()
      requires FreeLists.InitialCapacity(u.count, configured) < TWO_TO_64
      ensures fresh(list) && fresh(list.buf) && list.Guarded()
      ensures list.Contents() == FrameList(u) && list.buf.Length - list.headroom >= u.count
    {
      list := new FreeLists.FreeList.WithCapacity(u.count, configured);
      FreeLists.InitialListHoldsAllFrames(u.count, configured);
      FreeLists.LimitGuardsLiveSlots(list.buf.Length, list.headroom);
      var i := 0;
      while i < u.count
        invariant 0 <= i <= u.count
        invariant list.Guarded() && list.buf.Length - list.headroom >= u.count
        invariant list.Contents() == FrameList(u)[..i]
      {
        var _ := list.TryPush(FrameAddr(u, i));
        assert FrameList(u)[..i + 1] == FrameList(u)[..i] + [FrameAddr(u, i)];
        i := i + 1;
      }
      assert FrameList(u)[..u.count] == FrameList(u);
    }

    /** The part of `RealSocket::new` that sets up frames: a list with room for all of them,
        filled with their addresses in order. */
    constructor (u: Umem, txCap: nat, compCap: nat, configured: Option<nat>)
      requires u.Valid()
      requires FreeLists.InitialCapacity(u.count, configured) < TWO_TO_64
      requires Circular.Geometry(txCap, TWO_TO_32) && Circular.Geometry(compCap, TWO_TO_32)
      ensures Valid() && this.u == u
      ensures View() == Prefilled(u, View().limit, txCap, compCap) && Sound()
    {
      hide Circular.Live, Circular.Stored, Circular.Distance, Circular.Geometry, InUmem, Conserved, FrameList;
      hide IsPowerOfTwo, FreeLists.InitialCapacity, FreeLists.InitialHeadroom;
      this.u := u;
      umem := new byte[u.count * u.size](_ => 0);
      var list := PrefilledList(u, configured);
      free := list;
      tx := new Rings.Ring(txCap, 0);
      comp := new Rings.Ring(compCap, 0);
      kernel, nextFrame, sent, held := [], 0, [], map[];
      retryCount, backpressureCount, freePushDrop := 0, 0, 0;
      new;
      PrefilledConserved(u, View().limit, txCap, compCap);
    }

    /** The kernel's side of the TX and completion rings. */
    method RunKernel(moves: seq<Move>)
      requires Valid()
      modifies this`kernel, tx`cons, comp`prod, comp.desc
      ensures Valid() && View() == KernelMoves(old(View()), moves)
      ensures old(Sound()) ==> Sound()
    {
      for i := 0 to |moves|
        invariant free.Guarded() && tx.Valid() && comp.Valid()
        invariant View() == KernelMoves(old(View()), moves[..i])
      {
        assert moves[..i + 1][..i] == moves[..i];
        KernelStep(moves[i]);
      }
      assert moves[..|moves|] == moves;
      KernelMovesConserve(old(View()), moves);
      KernelLeavesIntact(u, old(View()), View(), umem[..], held);
    }

    method KernelStep(move: Move)
      requires Separate() && free.Guarded() && tx.Valid() && comp.Valid()
      modifies this`kernel, tx`cons, comp`prod, comp.desc
      ensures free.Guarded() && tx.Valid() && comp.Valid()
      ensures View() == KernelMove(old(View()), move)
    {
      match move
      case Take => KernelTakes();
      case Complete(i) => KernelCompletes(i);
    }

    method KernelTakes()
      requires Separate() && free.Guarded() && tx.Valid() && comp.Valid()
      modifies this`kernel, tx`cons
      ensures tx.Valid() && View() == KernelMove(old(View()), Take)
    {
      hide Circular.Live, Circular.Stored, Circular.Distance, Circular.Geometry, Rings.Read, And;
      var taken := tx.Pop(1);
      hide Rings.Ring.Contents, FreeLists.FreeList.Contents;
      Receive(taken);
    }

    method Receive(taken: seq<u64>)
      requires free.Guarded() && tx.Valid() && comp.Valid()
      modifies this`kernel
      ensures View() == old(View()).(kernel := old(kernel) + taken)
    {
      hide Rings.Ring.Contents, FreeLists.FreeList.Contents;
      kernel := kernel + taken;
    }

    method KernelCompletes(i: nat)
      requires Separate() && free.Guarded() && tx.Valid() && comp.Valid()
      modifies this`kernel, comp`prod, comp.desc
      ensures free.Guarded() && tx.Valid() && comp.Valid()
      ensures View() == KernelMove(old(View()), Complete(i))
    {
      hide Circular.Live, Circular.Stored, Circular.Distance, Circular.Geometry;
      if i < |kernel| {
        var pushed := comp.Push([kernel[i]]);
        if pushed == 1 {
          kernel := kernel[..i] + kernel[i + 1..];
        }
      }
    }

    /** Reclaim completed frames into the free list; a refused frame is dropped silently. */
    method ReclaimCompleted()
      requires Valid()
      modifies comp`cons, free`tail, free.buf
      ensures Valid() && View() == Reclaim(old(View()))
    {
      hide Circular.Live, Circular.Stored, Circular.Distance, Circular.Geometry, InUmem;
      ReclaimInUmem(u, View());
      var comps := comp.Pop(RECLAIM_BATCH);
      var _ := PushEach(comps);
    }

    /** Push addresses one by one; count the refusals. */
    method PushEach(addrs: seq<u64>) returns (refused: nat)
      requires free.Guarded()
      modifies free`tail, free.buf
      ensures free.Guarded()
      ensures var was, limit := old(free.Contents()), free.buf.Length - free.headroom;
              && free.Contents() == was + addrs[..Accepted(was, limit, addrs)]
              && refused == |addrs| - Accepted(was, limit, addrs)
    {
      hide Circular.Live, Circular.Stored, Circular.Distance, Circular.Geometry;
      refused := 0;
      ghost var was, limit := free.Contents(), free.buf.Length - free.headroom;
      assert was + addrs[..0] == was;
      for i := 0 to |addrs|
        invariant free.Guarded()
        invariant free.Contents() == was + addrs[..Accepted(was, limit, addrs[..i])]
        invariant refused == i - Accepted(was, limit, addrs[..i])
      {
        var ok := free.TryPush(addrs[i]);
        if !ok {
          refused := refused + 1;
        }
      }
    }

    /** `try_pop`, or the bump allocator when the list is empty. */
    method AllocFrame() returns (a: u64)
      requires Valid()
      modifies this`nextFrame, free`head
      ensures free.Guarded() && View() == AfterAlloc(old(View()), 1)
      ensures [a] == Allocated(u, old(View()), 1)
    {
      hide Circular.Live, Circular.Stored, Circular.Distance, Circular.Geometry, InUmem;
      ModUnique(nextFrame, TWO_TO_64, 0, nextFrame);
      assert Bumped(u, nextFrame, 0) == [];
      var popped := free.TryPop();
      match popped
      case Some(f) =>
        a := f;
      case None =>
        a := FrameAddr(u, nextFrame % u.count);
        nextFrame := WrapAdd(nextFrame, 1, TWO_TO_64);
    }

    /** `copy_nonoverlapping` into a frame. */
    method CopyToFrame(a: u64, data: seq<byte>)
      requires a + |data| <= umem.Length
      modifies umem
      ensures umem[..] == Patch(old(umem[..]), a, data)
    {
      forall i | 0 <= i < |data| {
        umem[a + i] := data[i];
      }
    }

    /** One frame for every packet of the batch, filled in order. */
    method AllocateAndCopy(buf: seq<byte>, offsets: seq<(nat, nat)>) returns (addrs: seq<u64>)
      requires Valid() && InBounds(buf, offsets)
      modifies this`nextFrame, free`head, umem
      ensures Valid() && View() == AfterAlloc(old(View()), |offsets|)
      ensures addrs == Allocated(u, old(View()), |offsets|) && |addrs| == |offsets| && AreFrames(u, addrs)
      ensures Distinct(addrs) ==> Copied(u, umem[..], addrs, buf, offsets)
      ensures Untouched(u, old(umem[..]), umem[..], addrs)
    {
      hide Circular.Live, Circular.Stored, Circular.Distance, Circular.Geometry, InUmem, Copied, Distinct;
      hide Allocated, AfterAlloc, AreFrames, Untouched;
      ghost var v, mem := View(), umem[..];
      addrs := [];
      AllocNothing(u, v);
      NothingCopied(u, umem[..], buf, offsets);
      for i := 0 to |offsets|
        invariant Valid()
        invariant View() == AfterAlloc(v, i) && addrs == Allocated(u, v, i) && |addrs| == i && AreFrames(u, addrs)
        invariant Distinct(addrs) ==> Copied(u, umem[..], addrs, buf, offsets)
        invariant Untouched(u, mem, umem[..], addrs)
      {
        AllocOneMore(u, v, i);
        AllocInUmem(u, v, i + 1);
        var a := AllocFrame();
        LastIsFrame(u, addrs, a);
        CopiedOneMore(u, umem[..], addrs, a, buf, offsets);
        TouchedOneMore(u, mem, umem[..], addrs, a, Prefix(buf, offsets[i], u.size));
        CopyToFrame(a, Prefix(buf, offsets[i], u.size));
        addrs := addrs + [a];
      }
    }

    /** `tx_push` of the batch's addresses. */
    method PushTx(addrs: seq<u64>) returns (pushed: nat)
      requires Valid() && AreFrames(u, addrs)
      modifies this`sent, tx`prod, tx.desc
      ensures Valid()
      ensures pushed == Room(old(View()), |addrs|) && pushed <= |addrs|
      ensures View() == AfterTxPush(old(View()), addrs, pushed)
    {
      hide Circular.Live, Circular.Stored, Circular.Distance, Circular.Geometry, InUmem;
      ReturnInUmem(u, View(), addrs, Room(View(), |addrs|));
      pushed := tx.Push(addrs);
      sent := sent + addrs[..pushed];
    }

    /** Give a failed batch back to the free list. */
    method ReturnFrames(addrs: seq<u64>)
      requires Valid() && AreFrames(u, addrs)
      modifies this`freePushDrop, free`tail, free.buf
      ensures Valid() && View() == AfterReturn(old(View()), addrs)
      ensures freePushDrop == old(freePushDrop) + |addrs| - Accepted(old(View()).free, old(View()).limit, addrs)
    {
      hide Circular.Live, Circular.Stored, Circular.Distance, Circular.Geometry, InUmem;
      ReturnInUmem(u, View(), addrs, 0);
      var refused := PushEach(addrs);
      freePushDrop := freePushDrop + refused;
    }

    /** One pass of the retry loop, up to its backpressure accounting. */
    method AttemptOnce(buf: seq<byte>, offsets: seq<(nat, nat)>, slack: Slack) returns (ok: bool, ghost addrs: seq<u64>)
      requires Valid() && InBounds(buf, offsets)
      modifies this`kernel, this`nextFrame, this`freePushDrop, this`backpressureCount, this`sent, umem
      modifies free`head, free`tail, free.buf, tx`cons, tx`prod, tx.desc, comp`cons, comp`prod, comp.desc
      ensures Valid()
      ensures var a := TryOnce(u, old(View()), |offsets|, slack);
              && View() == a.view && ok == a.ok && addrs == a.addrs
              && freePushDrop == old(freePushDrop) + a.dropped
              && backpressureCount == old(backpressureCount) + (if ok then 0 else 1)
      ensures Distinct(addrs) ==> Copied(u, umem[..], addrs, buf, offsets)
      ensures Untouched(u, old(umem[..]), umem[..], addrs)
    {
      hide Circular.Live, Circular.Stored, Circular.Distance, Circular.Geometry, InUmem, Copied, Distinct, AreFrames;
      hide Reclaim, KernelMoves, Allocated, AfterAlloc, AfterReturn, AfterTxPush, Room, Accepted, Untouched, Sound;
      RunKernel(slack.before);
      ReclaimCompleted();
      var frames := AllocateAndCopy(buf, offsets);
      addrs := frames;
      RunKernel(slack.between);
      var pushed := PushTx(frames);
      ok := pushed == |frames|;
      if !ok {
        backpressureCount := backpressureCount + 1;
        ReturnFrames(frames);
      }
    }

    /** `send`: retries while the TX ring has no room, counting backpressure and retries. When
        the batch is ready beforehand (or no attempt fell back or pushed in part), every frame
        stays in one place, none is refused, and whatever the kernel can read afterwards holds the
        bytes of the packet it was sent for. */
    method Send(buf: seq<byte>, offsets: seq<(nat, nat)>, slack: nat -> Slack) returns (ok: bool)
      requires Valid() && InBounds(buf, offsets)
      modifies this`kernel, this`nextFrame, this`freePushDrop, this`backpressureCount, this`retryCount
      modifies this`sent, this`held, umem
      modifies free`head, free`tail, free.buf, tx`cons, tx`prod, tx.desc, comp`cons, comp`prod, comp.desc
      ensures Valid()
      ensures var o := FrameFlow.Send(u, old(View()), |offsets|, slack);
              && View() == o.view && ok == o.ok
              && retryCount == old(retryCount) + o.retries
              && backpressureCount == old(backpressureCount) + o.backpressure
              && freePushDrop == old(freePushDrop) + o.dropped
              && Reached(u, o, old(held), held, umem[..], buf, offsets)
              && (Conserved(u, old(View())) && (o.clean || Ready(old(View()), |offsets|)) ==>
                    KeptTrack(u, o, old(View()), umem[..], held, buf, offsets) && (old(Sound()) ==> Sound()))
    {
      hide Circular.Live, Circular.Stored, Circular.Distance, Circular.Geometry, InUmem, Distinct;
      hide Rings.Ring.Contents, FreeLists.FreeList.Contents, Rings.Ring.Valid, FreeLists.FreeList.Guarded;
      ghost var addrs, v, data := [], View(), held;
      ghost var sound := Sound();
      hide Copied, Conserved, FrameFlow.Send, Intact, Ready, HeldAfter, KeptTrack, Reached;
      ok, addrs := Retry(buf, offsets, slack);
      SendSummary(u, v, slack, data, umem[..], buf, offsets, sound);
      Record(HeldSince(held, FrameFlow.Send(u, v, |offsets|, slack), buf, offsets, u.size));
    }

    ghost method Record(contents: map<u64, seq<byte>>)
      requires Valid()
      modifies this`held
      ensures Valid() && View() == old(View()) && held == contents
    {
      hide Rings.Ring.Contents, FreeLists.FreeList.Contents, Rings.Ring.Valid, FreeLists.FreeList.Guarded;
      held := contents;
    }

    /** The retry loop of `send`. */
    method Retry(buf: seq<byte>, offsets: seq<(nat, nat)>, slack: nat -> Slack)
      returns (ok: bool, ghost addrs: seq<u64>)
      requires Valid() && InBounds(buf, offsets)
      modifies this`kernel, this`nextFrame, this`freePushDrop, this`backpressureCount, this`retryCount, this`sent, umem
      modifies free`head, free`tail, free.buf, tx`cons, tx`prod, tx.desc, comp`cons, comp`prod, comp.desc
      ensures Valid()
      ensures var o := FrameFlow.Send(u, old(View()), |offsets|, slack);
              && View() == o.view && ok == o.ok && (ok ==> addrs == o.addrs)
              && retryCount == old(retryCount) + o.retries
              && backpressureCount == old(backpressureCount) + o.backpressure
              && freePushDrop == old(freePushDrop) + o.dropped
              && (ok && Distinct(addrs) ==> Copied(u, umem[..], addrs, buf, offsets))
              && (o.clean && old(Sound()) ==> Intact(u, o.view, umem[..], HeldSince(held, o, buf, offsets, u.size)))
    {
      hide Circular.Live, Circular.Stored, Circular.Distance, Circular.Geometry;
      hide InUmem, Copied, Distinct, TryOnce, SendFrom, Remaining, Untouched, Intact, Conserved, HeldAfter;
      ghost var n := |offsets|;
      ghost var whole := FrameFlow.Send(u, View(), n, slack);
      ghost var good := whole.clean && Sound();
      NothingCounted(whole);
      var attempt := 0;
      while true
        invariant attempt <= MAX_RETRIES && Valid()
        invariant Remaining(whole, SendFrom(u, View(), n, slack, attempt),
                            retryCount - old(retryCount),
                            backpressureCount - old(backpressureCount),
                            freePushDrop - old(freePushDrop))
        invariant good ==> SendFrom(u, View(), n, slack, attempt).clean && Sound()
        decreases MAX_RETRIES - attempt
      {
        ghost var v, mem := View(), umem[..];
        ContinueSend(u, v, n, slack, attempt, whole, retryCount - old(retryCount),
                     backpressureCount - old(backpressureCount), freePushDrop - old(freePushDrop));
        ok, addrs := AttemptOnce(buf, offsets, slack(attempt));
        if good {
          GoodAttempt(u, v, slack, attempt, mem, umem[..], held, buf, offsets);
        }
        if ok {
          return true, addrs;
        }
        if attempt == MAX_RETRIES {
          return false, addrs;
        }
        retryCount := retryCount + 1;
        attempt := attempt + 1;
      }
    }
  }

  /** What the retry loop leaves, put together. */
  lemma SendSummary(u: Umem, v: View, slack: nat -> Slack, held: map<u64, seq<byte>>,
                    mem: seq<byte>, buf: seq<byte>, offsets: seq<(nat, nat)>, sound: bool)
    requires u.Valid() && InBounds(buf, offsets)
    requires var o := FrameFlow.Send(u, v, |offsets|, slack);
             && (o.ok && Distinct(o.addrs) ==> Copied(u, mem, o.addrs, buf, offsets))
             && (o.clean && sound ==> Intact(u, o.view, mem, HeldSince(held, o, buf, offsets, u.size)))
    ensures var o := FrameFlow.Send(u, v, |offsets|, slack);
            && Reached(u, o, held, HeldSince(held, o, buf, offsets, u.size), mem, buf, offsets)
            && (Conserved(u, v) && (o.clean || Ready(v, |offsets|)) ==>
                  && KeptTrack(u, o, v, mem, HeldSince(held, o, buf, offsets, u.size), buf, offsets)
                  && (sound ==>
                        Conserved(u, o.view) && Intact(u, o.view, mem, HeldSince(held, o, buf, offsets, u.size))))
  {
    hide Conserved, Ready, SendFrom, Copied, Intact, HeldAfter;
    if Conserved(u, v) && Ready(v, |offsets|) {
      ReadyIsClean(u, v, |offsets|, slack, 0);
    }
    if Conserved(u, v) && FrameFlow.Send(u, v, |offsets|, slack).clean {
      CleanSend(u, v, |offsets|, slack, 0);
      HeldAfterMeaning(held, FrameFlow.Send(u, v, |offsets|, slack).addrs, buf, offsets, u.size);
    }
  }

  // ---------- What the kernel can read ----------

  /** Every frame on the kernel's side of the TX ring holds the bytes it was sent with. */
  ghost predicate Intact(u: Umem, v: View, mem: seq<byte>, held: map<u64, seq<byte>>) {
    forall a :: a in v.tx || a in v.kernel ==> a in held && Holds(u, mem, a, held[a])
  }

  ghost predicate Holds(u: Umem, mem: seq<byte>, a: u64, data: seq<byte>) {
    |data| <= u.size && a + |data| <= |mem| && mem[a..a + |data|] == data
  }

  /** The record of contents after a batch was sent. */
  function HeldAfter(held: map<u64, seq<byte>>, addrs: seq<u64>, buf: seq<byte>, offsets: seq<(nat, nat)>, size: nat)
    : map<u64, seq<byte>>
    requires InBounds(buf, offsets)
    decreases |addrs|
  {
    var k := |addrs| - 1;
    if k < 0 || k >= |offsets| then held
    else HeldAfter(held, addrs[..k], buf, offsets, size)[addrs[k] := Prefix(buf, offsets[k], size)]
  }

  function HeldSince(held: map<u64, seq<byte>>, o: Outcome, buf: seq<byte>, offsets: seq<(nat, nat)>, size: nat)
    : map<u64, seq<byte>>
    requires InBounds(buf, offsets)
  {
    if o.ok then HeldAfter(held, o.addrs, buf, offsets, size) else held
  }

  /** What the memory holds after a send, and what is recorded of it. */
  ghost predicate Reached(u: Umem, o: Outcome, heldBefore: map<u64, seq<byte>>, held: map<u64, seq<byte>>,
                          mem: seq<byte>, buf: seq<byte>, offsets: seq<(nat, nat)>)
    requires InBounds(buf, offsets)
  {
    && held == HeldSince(heldBefore, o, buf, offsets, u.size)
    && (o.ok && Distinct(o.addrs) ==> Copied(u, mem, o.addrs, buf, offsets))
  }

  /** Every frame is in one place and none was refused; on success the TX ring received one frame
      for each packet, in order, that starts with the packet's bytes. */
  ghost predicate KeptTrack(u: Umem, o: Outcome, before: View, mem: seq<byte>, held: map<u64, seq<byte>>,
                            buf: seq<byte>, offsets: seq<(nat, nat)>)
    requires u.Valid() && InBounds(buf, offsets)
  {
    && Conserved(u, o.view) && o.dropped == 0
    && o.view.sent == before.sent + o.addrs && |o.addrs| == (if o.ok then |offsets| else 0)
    && (o.ok ==> Copied(u, mem, o.addrs, buf, offsets) && Recorded(u, held, o.addrs, buf, offsets))
  }

  /** The record says of each frame what was put there. */
  ghost predicate Recorded(u: Umem, held: map<u64, seq<byte>>, addrs: seq<u64>, buf: seq<byte>,
                           offsets: seq<(nat, nat)>)
    requires InBounds(buf, offsets)
  {
    && |addrs| <= |offsets|
    && forall i :: 0 <= i < |addrs| ==> addrs[i] in held && IsPacket(held[addrs[i]], buf, offsets[i], u.size)
  }

  lemma {:induction false} HeldAfterMeaning(held: map<u64, seq<byte>>, addrs: seq<u64>, buf: seq<byte>,
                                            offsets: seq<(nat, nat)>, size: nat)
    requires InBounds(buf, offsets) && |addrs| <= |offsets| && Distinct(addrs)
    ensures var h := HeldAfter(held, addrs, buf, offsets, size);
            && (forall i :: 0 <= i < |addrs| ==>
                  && addrs[i] in h && h[addrs[i]] == Prefix(buf, offsets[i], size)
                  && IsPacket(h[addrs[i]], buf, offsets[i], size))
            && (forall a :: a in held && a !in addrs ==> a in h && h[a] == held[a])
    decreases |addrs|
  {
    if addrs != [] {
      var k := |addrs| - 1;
      assert addrs == addrs[..k] + [addrs[k]];
      DistinctPrefix(addrs[..k], addrs[k]);
      HeldAfterMeaning(held, addrs[..k], buf, offsets, size);
      hide Prefix;
    }
  }

  lemma KernelLeavesIntact(u: Umem, v: View, w: View, mem: seq<byte>, held: map<u64, seq<byte>>)
    requires KernelKeeps(v, w)
    ensures Intact(u, v, mem, held) ==> Intact(u, w, mem, held)
    ensures u.Valid() && Conserved(u, v) ==> Conserved(u, w)
  {
    forall a | a in w.tx || a in w.kernel
      ensures a in v.tx || a in v.kernel
    {
      assert a in multiset(w.tx) + multiset(w.kernel);
      assert a in multiset(v.tx) + multiset(v.kernel);
    }
  }

  /** Only frames among `addrs` changed. */
  ghost predicate Untouched(u: Umem, before: seq<byte>, after: seq<byte>, addrs: seq<u64>)
    requires u.Valid()
  {
    && |before| == |after|
    && forall b: u64 :: u.IsFrame(b) && b !in addrs && b + u.size <= |before| ==>
        before[b..b + u.size] == after[b..b + u.size]
  }

  lemma TouchedOneMore(u: Umem, before: seq<byte>, mem: seq<byte>, addrs: seq<u64>, a: u64, data: seq<byte>)
    requires u.Valid() && Untouched(u, before, mem, addrs)
    requires u.IsFrame(a) && a + |data| <= |mem| && |data| <= u.size
    ensures Untouched(u, before, Patch(mem, a, data), addrs + [a])
  {
    var after := Patch(mem, a, data);
    PatchSlices(mem, a, data);
    forall b: u64 | u.IsFrame(b) && b !in addrs + [a] && b + u.size <= |before|
      ensures before[b..b + u.size] == after[b..b + u.size]
    {
      assert a in addrs + [a];
      FramesApart(u, b, a);
      assert b !in addrs;
    }
  }

  /** A clean attempt from a sound state leaves what the kernel can read intact. */
  lemma AttemptIntact(u: Umem, v: View, slack: Slack, before: seq<byte>, after: seq<byte>,
                      held: map<u64, seq<byte>>, buf: seq<byte>, offsets: seq<(nat, nat)>)
    requires u.Valid() && Conserved(u, v) && Clean(TryOnce(u, v, |offsets|, slack)) && InBounds(buf, offsets)
    requires Intact(u, v, before, held) && u.count * u.size <= |before|
    requires InUmem(u, v)
    requires var a := TryOnce(u, v, |offsets|, slack);
             && Untouched(u, before, after, a.addrs)
             && (Distinct(a.addrs) ==> Copied(u, after, a.addrs, buf, offsets))
    ensures var a := TryOnce(u, v, |offsets|, slack);
            Intact(u, a.view, after, if a.ok then HeldAfter(held, a.addrs, buf, offsets, u.size) else held)
  {
    var a := TryOnce(u, v, |offsets|, slack);
    OwnFramesConserve(u, v, |offsets|, slack);
    AttemptShape(u, v, |offsets|, slack);
    forall x | x in a.view.tx || x in a.view.kernel
      ensures (a.ok && x in a.addrs) || (x !in a.addrs && (x in v.tx || x in v.kernel))
    {
      AttemptPlaces(u, v, |offsets|, slack, x);
    }
    hide TryOnce, Conserved, Clean, InUmem, Copied, Untouched, Distinct, HeldAfter, Intact;
    PlacesIntact(u, v, a, before, after, held, buf, offsets);
  }

  lemma PlacesIntact(u: Umem, v: View, a: Attempt, before: seq<byte>, after: seq<byte>,
                     held: map<u64, seq<byte>>, buf: seq<byte>, offsets: seq<(nat, nat)>)
    requires u.Valid() && InBounds(buf, offsets) && InUmem(u, v) && u.count * u.size <= |before|
    requires Intact(u, v, before, held) && Untouched(u, before, after, a.addrs)
    requires Distinct(a.addrs) && Copied(u, after, a.addrs, buf, offsets)
    requires forall x :: x in a.view.tx || x in a.view.kernel ==>
               (a.ok && x in a.addrs) || (x !in a.addrs && (x in v.tx || x in v.kernel))
    ensures Intact(u, a.view, after, if a.ok then HeldAfter(held, a.addrs, buf, offsets, u.size) else held)
  {
    hide HeldAfter, Distinct, Untouched, Holds, Copied, InUmem;
    var h := if a.ok then HeldAfter(held, a.addrs, buf, offsets, u.size) else held;
    CopiedCount(u, after, a.addrs, buf, offsets);
    HeldAfterMeaning(held, a.addrs, buf, offsets, u.size);
    forall x | x in a.view.tx || x in a.view.kernel
      ensures x in h && Holds(u, after, x, h[x])
    {
      if x in a.addrs {
        var i :| 0 <= i < |a.addrs| && a.addrs[i] == x;
        CopiedHolds(u, after, a.addrs, buf, offsets, i);
      } else {
        StillHolds(u, v, before, after, a.addrs, x, held[x]);
      }
    }
  }

  lemma CopiedCount(u: Umem, mem: seq<byte>, addrs: seq<u64>, buf: seq<byte>, offsets: seq<(nat, nat)>)
    requires InBounds(buf, offsets) && Copied(u, mem, addrs, buf, offsets)
    ensures |addrs| <= |offsets|
  {
  }

  lemma CopiedHolds(u: Umem, mem: seq<byte>, addrs: seq<u64>, buf: seq<byte>, offsets: seq<(nat, nat)>, i: nat)
    requires InBounds(buf, offsets) && Copied(u, mem, addrs, buf, offsets) && i < |addrs| <= |offsets|
    ensures Holds(u, mem, addrs[i], Prefix(buf, offsets[i], u.size))
  {
    assert HasPacket(u, mem, addrs[i], buf, offsets[i]);
    PacketIsPrefix(mem[addrs[i]..addrs[i] + Min(offsets[i].1, u.size)], buf, offsets[i], u.size);
  }

  /** A frame that was not written to holds what it held. */
  lemma StillHolds(u: Umem, v: View, before: seq<byte>, after: seq<byte>, addrs: seq<u64>, x: u64, data: seq<byte>)
    requires u.Valid() && InUmem(u, v) && u.count * u.size <= |before|
    requires Untouched(u, before, after, addrs)
    requires (x in v.tx || x in v.kernel) && x !in addrs && Holds(u, before, x, data)
    ensures Holds(u, after, x, data)
  {
    assert x in Everywhere(v);
    FrameInside(u, x);
    var n := |data|;
    assert after[x..x + u.size][..n] == after[x..x + n] && before[x..x + u.size][..n] == before[x..x + n];
  }

  /** The same for one round of the retry loop, with what the next round needs. */
  lemma GoodAttempt(u: Umem, v: View, slack: nat -> Slack, attempt: nat, before: seq<byte>, after: seq<byte>,
                    held: map<u64, seq<byte>>, buf: seq<byte>, offsets: seq<(nat, nat)>)
    requires u.Valid() && attempt <= MAX_RETRIES && InBounds(buf, offsets)
    requires InUmem(u, v) && u.count * u.size <= |before|
    requires SendFrom(u, v, |offsets|, slack, attempt).clean && Conserved(u, v) && Intact(u, v, before, held)
    requires var a := TryOnce(u, v, |offsets|, slack(attempt));
             && Untouched(u, before, after, a.addrs)
             && (Distinct(a.addrs) ==> Copied(u, after, a.addrs, buf, offsets))
    ensures var a := TryOnce(u, v, |offsets|, slack(attempt));
            && Intact(u, a.view, after, if a.ok then HeldAfter(held, a.addrs, buf, offsets, u.size) else held)
            && Conserved(u, a.view)
            && (!a.ok && attempt < MAX_RETRIES ==> SendFrom(u, a.view, |offsets|, slack, attempt + 1).clean)
  {
    hide TryOnce, Conserved, HeldAfter, Distinct, Intact, Untouched, InUmem;
    AttemptIntact(u, v, slack(attempt), before, after, held, buf, offsets);
    LastAttemptDelivers(u, v, |offsets|, slack(attempt));
  }

  // ---------- Counting attempts ----------

  /** The whole outcome is what is still to come, plus what the loop has counted so far. */
  ghost predicate Remaining(whole: Outcome, rest: Outcome, retries: int, backpressure: int, dropped: int) {
    && whole.view == rest.view && whole.ok == rest.ok && whole.addrs == rest.addrs
    && whole.retries == rest.retries + retries
    && whole.backpressure == rest.backpressure + backpressure
    && whole.dropped == rest.dropped + dropped
  }

  lemma NothingCounted(whole: Outcome)
    ensures Remaining(whole, whole, 0, 0, 0)
  {
  }

  /** What one attempt adds to the counts, and what is left to do after it. */
  lemma ContinueSend(u: Umem, v: View, n: nat, slack: nat -> Slack, attempt: nat,
                     whole: Outcome, retries: int, backpressure: int, dropped: int)
    requires u.Valid() && attempt <= MAX_RETRIES
    requires Remaining(whole, SendFrom(u, v, n, slack, attempt), retries, backpressure, dropped)
    ensures var a := TryOnce(u, v, n, slack(attempt));
            if a.ok || attempt == MAX_RETRIES then
              && whole.view == a.view && whole.ok == a.ok && (a.ok ==> whole.addrs == a.addrs)
              && whole.retries == retries && whole.backpressure == backpressure + (if a.ok then 0 else 1)
              && whole.dropped == dropped + a.dropped
            else
              Remaining(whole, SendFrom(u, a.view, n, slack, attempt + 1),
                        retries + 1, backpressure + 1, dropped + a.dropped)
  {
    if TryOnce(u, v, n, slack(attempt)).ok {
      SuccessDropsNothing(u, v, n, slack(attempt));
    }
    hide TryOnce;
  }

  lemma SuccessDropsNothing(u: Umem, v: View, n: nat, slack: Slack)
    requires u.Valid() && TryOnce(u, v, n, slack).ok
    ensures TryOnce(u, v, n, slack).dropped == 0
  {
  }

  /** Frame `addrs[i]` starts with the bytes of packet `i`, cut to the frame size. */
  ghost predicate Copied(u: Umem, mem: seq<byte>, addrs: seq<u64>, buf: seq<byte>, offsets: seq<(nat, nat)>)
    requires InBounds(buf, offsets)
  {
    && |addrs| <= |offsets|
    && forall i :: 0 <= i < |addrs| ==> HasPacket(u, mem, addrs[i], buf, offsets[i])
  }

  /** A frame starts with the packet's bytes. */
  ghost predicate HasPacket(u: Umem, mem: seq<byte>, a: u64, buf: seq<byte>, at: (nat, nat))
    requires at.0 + at.1 <= |buf|
  {
    var n := Min(at.1, u.size);
    a + n <= |mem| && IsPacket(mem[a..a + n], buf, at, u.size)
  }

  lemma AllocNothing(u: Umem, v: View)
    requires u.Valid()
    ensures AfterAlloc(v, 0) == v && Allocated(u, v, 0) == [] && AreFrames(u, [])
  {
    ModUnique(v.nextFrame, TWO_TO_64, 0, v.nextFrame);
  }

  lemma NothingCopied(u: Umem, mem: seq<byte>, buf: seq<byte>, offsets: seq<(nat, nat)>)
    requires InBounds(buf, offsets)
    ensures Copied(u, mem, [], buf, offsets)
    ensures u.Valid() ==> Untouched(u, mem, mem, [])
  {
  }

  lemma LastIsFrame(u: Umem, addrs: seq<u64>, a: u64)
    requires u.Valid() && AreFrames(u, addrs + [a])
    ensures u.IsFrame(a) && a + u.size <= u.count * u.size
  {
    assert a in addrs + [a];
    FrameInside(u, a);
  }

  /** Writing a further, different frame keeps what the earlier frames hold. */
  lemma CopiedOneMore(u: Umem, mem: seq<byte>, addrs: seq<u64>, a: u64, buf: seq<byte>, offsets: seq<(nat, nat)>)
    requires u.Valid() && AreFrames(u, addrs + [a]) && u.count * u.size <= |mem|
    requires InBounds(buf, offsets) && |addrs| < |offsets|
    requires a + u.size <= |mem|
    requires Distinct(addrs) ==> Copied(u, mem, addrs, buf, offsets)
    ensures var data := Prefix(buf, offsets[|addrs|], u.size);
            Distinct(addrs + [a]) ==> Copied(u, Patch(mem, a, data), addrs + [a], buf, offsets)
  {
    var data := Prefix(buf, offsets[|addrs|], u.size);
    var after := Patch(mem, a, data);
    PatchSlices(mem, a, data);
    if Distinct(addrs + [a]) {
      DistinctPrefix(addrs, a);
      assert HasPacket(u, after, a, buf, offsets[|addrs|]);
      forall i | 0 <= i < |addrs|
        ensures HasPacket(u, after, addrs[i], buf, offsets[i])
      {
        assert addrs[i] == (addrs + [a])[i] && a == (addrs + [a])[|addrs|];
        assert addrs[i] in addrs + [a] && a in addrs + [a];
        FramesApart(u, addrs[i], a);
        assert HasPacket(u, mem, addrs[i], buf, offsets[i]);
        hide Patch, IsPacket;
      }
    }
  }

  lemma DistinctPrefix(addrs: seq<u64>, a: u64)
    requires Distinct(addrs + [a])
    ensures Distinct(addrs)
  {
    forall i, j | 0 <= i < j < |addrs|
      ensures addrs[i] != addrs[j]
    {
      assert (addrs + [a])[i] != (addrs + [a])[j];
    }
  }
}
