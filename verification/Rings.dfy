/** The AF_XDP descriptor rings of `afxdp/src/rings.rs`: producer and consumer indices that wrap
    at 2^32, masked slots, and copies in at most two chunks. They are queues exactly when the
    number of slots is a power of two. */
module Rings {
  import opened Bits
  import opened Circular

  class Ring {
    const desc: array<u64>
    const mask: nat
    var prod: u32
    var cons: u32

    /** What `RingMmap::new` guarantees, with indices at most the capacity apart. */
    ghost predicate Shaped()
      reads this, desc
    {
      0 < desc.Length < TWO_TO_32 && mask == desc.Length - 1 && Distance(prod, cons, TWO_TO_32) <= desc.Length
    }

    /** The number of slots is a power of two, as well. */
    ghost predicate Valid()
      reads this, desc
    {
      Shaped() && Geometry(desc.Length, TWO_TO_32)
    }

    ghost function Contents(): (q: seq<u64>)
      requires Valid()
      reads this, desc
      ensures |q| <= desc.Length
    {
      Live(desc[..], prod, cons, TWO_TO_32)
    }

    constructor (cap: nat, start: u32)
      requires Geometry(cap, TWO_TO_32)
      ensures Valid() && fresh(desc) && desc.Length == cap
      ensures Contents() == []
    {
      desc := new u64[cap](_ => 0);
      mask := cap - 1;
      prod, cons := start, start;
    }

    /** `copy_nonoverlapping` from the caller's slice into the descriptor area. */
    method CopyIn(at: nat, src: seq<u64>)
      requires at + |src| <= desc.Length
      modifies desc
      ensures desc[..] == Patch(old(desc[..]), at, src)
    {
      forall i | 0 <= i < |src| {
        desc[at + i] := src[i];
      }
    }

    /** The two chunk copies of a push, from the producer's slot on. */
    method CopyWrapped(items: seq<u64>)
      requires Shaped() && |items| <= desc.Length
      modifies desc
      ensures desc[..] == Written(old(desc[..]), And(prod, mask), items)
    {
      hide Geometry, Distance, IsPowerOfTwo;
      var start := And(prod, mask);
      var chunk1 := Min(|items|, mask + 1 - start);
      var chunk2 := |items| - chunk1;
      CopyIn(start, items[..chunk1]);
      if chunk2 > 0 {
        CopyIn(0, items[chunk1..]);
      }
    }

    /** `fill_push` and `tx_push`, which are the same code on two rings. On a ring with a power of
        two of slots it appends to the queue; on any ring it writes from the masked index on. */
    method Push(addrs: seq<u64>) returns (pushed: nat)
      requires Shaped()
      modifies this`prod, desc
      ensures Shaped()
      ensures pushed == Min(desc.Length - Distance(old(prod), cons, TWO_TO_32), |addrs|)
      ensures prod == WrapAdd(old(prod), pushed, TWO_TO_32)
      ensures desc[..] == Written(old(desc[..]), And(old(prod), mask), addrs[..pushed])
      ensures old(Valid()) ==>
                && Valid() && Contents() == old(Contents()) + addrs[..pushed]
                && Stored(old(desc[..]), desc[..], old(prod), addrs[..pushed])
    {
      hide And, Live, Stored, Written, IsPowerOfTwo;
      var capacity := mask + 1;
      var used := WrapSub(prod, cons, TWO_TO_32);
      var free := if capacity >= used then capacity - used else 0;
      if free == 0 {
        NothingWritten(desc[..], prod, cons, addrs);
        return 0;
      }
      pushed := Min(free, |addrs|);
      CopyWrapped(addrs[..pushed]);
      DistanceAfterPush(prod, cons, pushed, TWO_TO_32);
      if Geometry(desc.Length, TWO_TO_32) {
        WrittenAppends(old(desc[..]), prod, cons, addrs[..pushed]);
      }
      prod := WrapAdd(prod, pushed, TWO_TO_32);
    }

    /** `rx_pop` and `comp_pop`, which are the same code on two rings. On a ring with a power of
        two of slots it takes from the front of the queue; on any ring it reads from the masked
        index on. */
    method Pop(max: nat) returns (out: seq<u64>)
      requires Shaped()
      modifies this`cons
      ensures Shaped()
      ensures |out| == Min(Distance(prod, old(cons), TWO_TO_32), max)
      ensures cons == WrapAdd(old(cons), |out|, TWO_TO_32)
      ensures out == Read(desc[..], And(old(cons), mask), |out|)
      ensures old(Valid()) ==>
                && Valid() && out == old(Contents())[..Min(|old(Contents())|, max)]
                && Contents() == old(Contents())[Min(|old(Contents())|, max)..]
    {
      hide And, Live, Read, IsPowerOfTwo;
      var avail := WrapSub(prod, cons, TWO_TO_32);
      if avail == 0 {
        NothingRead(desc[..], prod, cons);
        return [];
      }
      var toTake := Min(avail, max);
      out := CopyOut(toTake);
      DistanceAfterPop(prod, cons, toTake, TWO_TO_32);
      if Geometry(desc.Length, TWO_TO_32) {
        ReadDrops(desc[..], prod, cons, toTake);
      }
      cons := WrapAdd(cons, toTake, TWO_TO_32);
    }

    /** The two chunk copies of a pop, from the consumer's slot on. */
    method CopyOut(n: nat) returns (out: seq<u64>)
      requires Shaped() && n <= desc.Length
      ensures out == Read(desc[..], And(cons, mask), n) && |out| == n
    {
      hide Geometry, Distance, IsPowerOfTwo;
      var start := And(cons, mask);
      var chunk1 := Min(n, mask + 1 - start);
      var chunk2 := n - chunk1;
      out := desc[start..start + chunk1];
      if chunk2 > 0 {
        out := out + desc[..chunk2];
      }
    }
  }

  /** Two chunks written from a slot on, the second from the beginning. */
  function Written(desc: seq<u64>, start: nat, items: seq<u64>): (r: seq<u64>)
    ensures |r| == |desc|
  {
    if start >= |desc| || |items| > |desc| then desc
    else
      var chunk1 := Min(|items|, |desc| - start);
      var first := Patch(desc, start, items[..chunk1]);
      if chunk1 < |items| then Patch(first, 0, items[chunk1..]) else first
  }

  /** Two chunks read from a slot on, the second from the beginning. */
  function Read(desc: seq<u64>, start: nat, n: nat): seq<u64> {
    if start >= |desc| || n > |desc| then []
    else
      var chunk1 := Min(n, |desc| - start);
      desc[start..start + chunk1] + desc[..n - chunk1]
  }

  lemma NothingWritten(desc: seq<u64>, prod: u32, cons: u32, addrs: seq<u64>)
    requires |desc| > 0
    ensures prod == WrapAdd(prod, 0, TWO_TO_32)
    ensures Written(desc, And(prod, |desc| - 1), addrs[..0]) == desc
    ensures Stored(desc, desc, prod, addrs[..0])
    ensures Live(desc, prod, cons, TWO_TO_32) + addrs[..0] == Live(desc, prod, cons, TWO_TO_32)
  {
    ModUnique(prod, TWO_TO_32, 0, prod);
    assert addrs[..0] == [];
    hide Live;
  }

  lemma NothingRead(desc: seq<u64>, prod: u32, cons: u32)
    requires |desc| > 0
    ensures cons == WrapAdd(cons, 0, TWO_TO_32)
    ensures Read(desc, And(cons, |desc| - 1), 0) == []
    ensures Distance(prod, cons, TWO_TO_32) == 0 ==> Live(desc, prod, cons, TWO_TO_32) == []
  {
    ModUnique(cons, TWO_TO_32, 0, cons);
  }

  /** With a power of two of slots the masked index is the slot, and two chunks append. */
  lemma WrittenAppends(desc: seq<u64>, prod: u32, cons: u32, items: seq<u64>)
    requires Geometry(|desc|, TWO_TO_32) && Distance(prod, cons, TWO_TO_32) + |items| <= |desc|
    ensures var after := Written(desc, And(prod, |desc| - 1), items);
            && Stored(desc, after, prod, items)
            && Live(after, WrapAdd(prod, |items|, TWO_TO_32), cons, TWO_TO_32)
               == Live(desc, prod, cons, TWO_TO_32) + items
  {
    MaskIsMod(prod, |desc|);
    var after := Written(desc, And(prod, |desc| - 1), items);
    hide And, Live, Stored, Distance, Geometry;
    TwoChunksStore(desc, after, prod, items, Min(|items|, |desc| - prod % |desc|));
    StoreAppends(desc, after, prod, cons, items, TWO_TO_32);
  }

  lemma ReadDrops(desc: seq<u64>, prod: u32, cons: u32, n: nat)
    requires Geometry(|desc|, TWO_TO_32) && n <= Distance(prod, cons, TWO_TO_32) <= |desc|
    ensures Read(desc, And(cons, |desc| - 1), n) == Live(desc, prod, cons, TWO_TO_32)[..n]
    ensures Live(desc, prod, WrapAdd(cons, n, TWO_TO_32), TWO_TO_32) == Live(desc, prod, cons, TWO_TO_32)[n..]
  {
    MaskIsMod(cons, |desc|);
    TwoChunksLoad(desc, cons, n, Read(desc, And(cons, |desc| - 1), n));
    hide And;
    AdvanceDrops(desc, prod, cons, n, TWO_TO_32);
  }

  // ---------- `RingMmap::new` ----------

  const DESC_SIZE: nat := 8

  /** Slots in the descriptor region between two offsets (`saturating_sub`, at least one). */
  function RegionSlots(lo: nat, hi: nat): (n: nat)
    ensures n >= 1
  {
    Max((if hi >= lo then hi - lo else 0) / DESC_SIZE, 1)
  }

  // ---------- Which numbers of slots make a queue ----------

  /** What pushes of one descriptor each leave in a ring whose indices started at 0. */
  function Singles(desc: seq<u64>, items: seq<u64>): (r: seq<u64>)
    ensures |r| == |desc|
    decreases |items|
  {
    if items == [] || desc == [] then desc
    else
      var n := |items| - 1;
      Written(Singles(desc, items[..n]), And(n, |desc| - 1), [items[n]])
  }

  /** However many descriptors are pushed, up to the number of slots, each is still there for the
      pop that will read its masked index. */
  ghost predicate KeepsQueue(slots: nat)
    requires slots > 0
  {
    forall desc: seq<u64>, items: seq<u64> ::
      |desc| == slots && |items| <= slots ==> StillThere(Singles(desc, items), items)
  }

  ghost predicate StillThere(desc: seq<u64>, items: seq<u64>)
    requires |desc| > 0
  {
    forall i :: 0 <= i < |items| ==> desc[And(i, |desc| - 1)] == items[i]
  }

  lemma WrittenOne(desc: seq<u64>, at: nat, x: u64)
    requires at < |desc|
    ensures Written(desc, at, [x]) == desc[at := x]
  {
  }

  /** With a power of two of slots no push touches an earlier descriptor. */
  lemma {:induction false} SinglesStay(desc: seq<u64>, items: seq<u64>)
    requires |items| <= |desc| && IsPowerOfTwo(|desc|)
    ensures StillThere(Singles(desc, items), items)
    decreases |items|
  {
    if items != [] {
      var n, slots, mask := |items| - 1, |desc|, |desc| - 1;
      SinglesStay(desc, items[..n]);
      WrittenOne(Singles(desc, items[..n]), And(n, mask), items[n]);
      forall i | 0 <= i < n
        ensures And(i, mask) != And(n, mask)
      {
        MaskIsMod(i, slots);
        MaskIsMod(n, slots);
        DistinctSlots(0, i, n, slots);
      }
    }
  }

  /** With any other number some push, before the ring is full, lands on the first descriptor. */
  lemma PushLandsOnFirst(desc: seq<u64>, a: u64, b: u64) returns (items: seq<u64>)
    requires |desc| > 0 && !IsPowerOfTwo(|desc|) && a != b
    ensures 1 < |items| <= |desc| && items[0] == a && Singles(desc, items)[And(0, |desc| - 1)] == b
  {
    var j := MaskCollides(|desc|);
    items := seq(j + 1, i => if i < j then a else b);
    WrittenOne(Singles(desc, items[..j]), And(j, |desc| - 1), b);
    hide Written;
  }

  /** A ring keeps what is pushed exactly when the number of its slots is a power of two, which
      `RingMmap::new` takes from the offsets and does not check. */
  lemma KeepsQueueExactly(slots: nat)
    requires slots > 0
    ensures KeepsQueue(slots) <==> IsPowerOfTwo(slots)
  {
    hide StillThere, Singles;
    if IsPowerOfTwo(slots) {
      forall desc: seq<u64>, items: seq<u64> | |desc| == slots && |items| <= slots
        ensures StillThere(Singles(desc, items), items)
      {
        SinglesStay(desc, items);
      }
    } else {
      var desc := seq(slots, _ => 0);
      var items := PushLandsOnFirst(desc, 1, 2);
      LostFirst(Singles(desc, items), items);
    }
  }

  lemma LostFirst(desc: seq<u64>, items: seq<u64>)
    requires |desc| > 0 && |items| > 0 && desc[And(0, |desc| - 1)] != items[0]
    ensures !StillThere(desc, items)
  {
  }

  /** A descriptor region serves a ring, that is, ends before the next offset and keeps what is
      pushed, exactly when there is room for one slot and for a power of two of them. */
  lemma RegionServesRing(lo: nat, hi: nat)
    ensures (lo + RegionSlots(lo, hi) * DESC_SIZE <= hi && KeepsQueue(RegionSlots(lo, hi)))
            <==> (lo + DESC_SIZE <= hi && IsPowerOfTwo((hi - lo) / DESC_SIZE))
  {
    KeepsQueueExactly(RegionSlots(lo, hi));
    hide KeepsQueue;
  }

  /** Three slots, two pushes of one descriptor: the second lands on the first. */
  lemma ThreeSlotsOverwrite(x: u64, y: u64, z: u64, a: u64, b: u64)
    ensures Written(Written([x, y, z], And(0, 2), [a]), And(1, 2), [b]) == [b, y, z]
  {
    assert And(0, 1) == 0;
    WrittenOne([x, y, z], 0, a);
    WrittenOne([a, y, z], 0, b);
  }
}
