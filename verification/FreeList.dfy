/** The bounded free list of `afxdp/src/socket.rs`, as one thread sees it. */
module FreeLists {
  import opened Bits
  import opened Circular

  /** `with_capacity`: the soft reserve (from the environment, or an eighth and at least eight)... */
  function InitialHeadroom(n: nat, configured: Option<nat>): nat {
    match configured
    case Some(h) => h
    case None => Max(n / 8, 8)
  }

  /** ...and the number of slots. */
  function InitialCapacity(n: nat, configured: Option<nat>): nat {
    var atLeastOne := Max(n, 1);
    NextPowerOfTwo(atLeastOne + InitialHeadroom(atLeastOne, configured))
  }

  /** How many values `try_push` lets in: `cap.wrapping_sub(hr)` on 64 bits. */
  function Limit(cap: nat, headroom: nat): nat { WrapSub(cap, headroom, TWO_TO_64) }

  predicate Accepts(used: nat, cap: nat, headroom: nat) { used < Limit(cap, headroom) }

  /** The subtraction keeps a push off live slots exactly when the headroom is at most the
      capacity: otherwise it wraps and a full list still accepts. */
  lemma LimitGuardsLiveSlots(cap: nat, headroom: u64)
    requires cap < TWO_TO_64
    ensures headroom <= cap <==> (forall used: nat :: used <= cap && Accepts(used, cap, headroom) ==> used < cap)
    ensures headroom <= cap ==> Limit(cap, headroom) == cap - headroom
  {
    if headroom <= cap {
      ModUnique(cap - headroom, TWO_TO_64, 0, cap - headroom);
    } else {
      ModUnique(cap - headroom, TWO_TO_64, -1, cap - headroom + TWO_TO_64);
      assert Accepts(cap, cap, headroom);
    }
  }

  /** A list made for `n` frames takes all of them. */
  lemma InitialListHoldsAllFrames(n: nat, configured: Option<nat>)
    requires InitialCapacity(n, configured) < TWO_TO_64
    ensures var cap, hr := InitialCapacity(n, configured), InitialHeadroom(Max(n, 1), configured);
            hr <= cap && Limit(cap, hr) >= n && Geometry(cap, TWO_TO_64)
  {
    WordSizes();
    LimitGuardsLiveSlots(InitialCapacity(n, configured), InitialHeadroom(Max(n, 1), configured));
  }

  /** The reserve is the configured one, or an eighth of the frames and eight at least; the capacity
      is the least power of two that takes frames and reserve. */
  lemma InitialSizes(n: nat, configured: Option<nat>, p: nat)
    requires n > 0 && IsPowerOfTwo(p)
    ensures var cap, hr := InitialCapacity(n, configured), InitialHeadroom(n, configured);
            && IsPowerOfTwo(cap) && n + hr <= cap && (n + hr <= p ==> cap <= p)
            && hr == (if configured.Some? then configured.value else if n < 72 then 8 else n / 8)
  {
    if n + InitialHeadroom(n, configured) <= p {
      NextPowerOfTwoIsLeast(n + InitialHeadroom(n, configured), p);
    }
    hide NextPowerOfTwo, IsPowerOfTwo;
  }

  class FreeList {
    const buf: array<u64>
    const mask: nat
    var head: u64
    var tail: u64
    var headroom: u64

    ghost predicate Shaped()
      reads this
    {
      Geometry(buf.Length, TWO_TO_64) && mask == buf.Length - 1
    }

    /** No more unread values than there are slots. */
    ghost predicate Valid()
      reads this, buf
    {
      Shaped() && Distance(tail, head, TWO_TO_64) <= buf.Length
    }

    /** The headroom is at most the capacity, as well, so that no push overwrites. */
    ghost predicate Guarded()
      reads this, buf
    {
      Valid() && headroom <= buf.Length
    }

    ghost function Contents(): (q: seq<u64>)
      requires Valid()
      reads this, buf
    {
      Live(buf[..], tail, head, TWO_TO_64)
    }

    constructor WithCapacity(n: nat, configured: Option<nat>)
      requires InitialCapacity(n, configured) < TWO_TO_64
      ensures Valid() && fresh(buf)
      ensures Contents() == [] && headroom <= buf.Length
      ensures buf.Length == InitialCapacity(n, configured) && headroom == InitialHeadroom(Max(n, 1), configured)
    {
      InitialListHoldsAllFrames(n, configured);
      var cap := InitialCapacity(n, configured);
      buf := new u64[cap](_ => 0);
      mask := cap - 1;
      head, tail := 0, 0;
      headroom := InitialHeadroom(Max(n, 1), configured);
    }

    /** `set_headroom`: any value is stored. */
    method SetHeadroom(h: u64)
      requires Valid()
      modifies this`headroom
      ensures Valid() && headroom == h && Contents() == old(Contents())
    {
      headroom := h;
    }

    /** `try_push`: what it stores and where, and what that means for the queue. With a headroom
        above the capacity the limit wraps, and a full list overwrites its oldest value. */
    method TryPush(v: u64) returns (ok: bool)
      requires Shaped()
      modifies this`tail, buf
      ensures Shaped()
      ensures ok <==> Accepts(Distance(old(tail), head, TWO_TO_64), buf.Length, headroom)
      ensures tail == if ok then WrapAdd(old(tail), 1, TWO_TO_64) else old(tail)
      ensures buf[..] == if ok then old(buf[..])[And(old(tail), mask) := v] else old(buf[..])
      ensures old(Valid()) && (headroom <= buf.Length || |old(Contents())| < buf.Length) ==>
                && Valid()
                && Contents() == (if ok then old(Contents()) + [v] else old(Contents()))
                && (headroom <= buf.Length ==> (ok <==> |old(Contents())| < buf.Length - headroom))
    {
      hide Live, Stored, And, Geometry;
      var used := WrapSub(tail, head, TWO_TO_64);
      ghost var room := headroom <= buf.Length || used < buf.Length;
      ShapeFacts();
      if used >= WrapSub(buf.Length, headroom, TWO_TO_64) {
        return false;
      }
      var idx := And(tail, mask);
      buf[idx] := v;
      if used < buf.Length {
        PushAppends(old(buf[..]), tail, head, v);
      }
      tail := WrapAdd(tail, 1, TWO_TO_64);
      return true;
    }

    lemma ShapeFacts()
      requires Shaped()
      ensures 0 < buf.Length < TWO_TO_64
      ensures headroom <= buf.Length ==> Limit(buf.Length, headroom) == buf.Length - headroom
    {
      LimitGuardsLiveSlots(buf.Length, headroom);
    }

    method TryPop() returns (r: Option<u64>)
      requires Valid()
      modifies this`head
      ensures Valid()
      ensures var was := old(Contents());
              if was == [] then r == None && Contents() == [] else r == Some(was[0]) && Contents() == was[1..]
    {
      ModUnique(0, TWO_TO_64, 0, 0);
      if head == tail {
        return None;
      }
      NonEmptyWhenApart(tail, head, TWO_TO_64);
      var idx := And(head, mask);
      MaskIsMod(head, buf.Length);
      var v := buf[idx];
      AdvanceDrops(buf[..], tail, head, 1, TWO_TO_64);
      DistanceAfterPop(tail, head, 1, TWO_TO_64);
      head := WrapAdd(head, 1, TWO_TO_64);
      return Some(v);
    }
  }

  /** Storing at the masked tail while a slot is free appends. */
  lemma PushAppends(buf: seq<u64>, tail: u64, head: u64, v: u64)
    requires Geometry(|buf|, TWO_TO_64) && Distance(tail, head, TWO_TO_64) < |buf|
    ensures var next := WrapAdd(tail, 1, TWO_TO_64);
            && Live(buf[And(tail, |buf| - 1) := v], next, head, TWO_TO_64) == Live(buf, tail, head, TWO_TO_64) + [v]
            && Distance(next, head, TWO_TO_64) == Distance(tail, head, TWO_TO_64) + 1
  {
    MaskIsMod(tail, |buf|);
    var after := buf[And(tail, |buf| - 1) := v];
    SingleStore(buf, after, tail, v);
    hide Live, Stored, And;
    StoreAppends(buf, after, tail, head, [v], TWO_TO_64);
    DistanceAfterPush(tail, head, 1, TWO_TO_64);
  }

  lemma SingleStore(before: seq<u64>, after: seq<u64>, idx: nat, v: u64)
    requires |before| > 0 && after == before[Slot(idx, 0, |before|) := v]
    ensures Stored(before, after, idx, [v])
  {
  }

  lemma NonEmptyWhenApart(tail: nat, head: nat, m: nat)
    requires tail < m && head < m
    ensures Distance(tail, head, m) == 0 <==> tail == head
  {
    if tail >= head {
      ModUnique(tail - head, m, 0, tail - head);
    } else {
      ModUnique(tail - head, m, -1, tail - head + m);
    }
  }
}
