/** Circular buffers addressed by two indices that wrap at `m`, a power of two larger than the
    power-of-two number of slots: `m` is 2^32 for the descriptor rings of `afxdp/src/rings.rs`
    and 2^64 for the free list of `afxdp/src/socket.rs`. */
module Circular {
  import opened Bits

  /** Number of elements between two indices. */
  function Distance(prod: nat, cons: nat, m: nat): nat
    requires m > 0
  {
    WrapSub(prod, cons, m)
  }

  predicate Geometry(cap: nat, m: nat) { IsPowerOfTwo(cap) && IsPowerOfTwo(m) && cap < m }

  /** The slot `i` places after an index. */
  function Slot(idx: nat, i: nat, cap: nat): (j: nat)
    requires cap > 0
    ensures j < cap
  {
    (idx + i) % cap
  }

  /** The queue a ring holds: element `i` sits `i` slots after the consumer index, modulo the
      number of slots. No mask, chunk or wrapped index appears here. */
  function Live(desc: seq<u64>, prod: nat, cons: nat, m: nat): (q: seq<u64>)
    requires |desc| > 0 && m > 0
    ensures |q| == Distance(prod, cons, m)
  {
    seq(Distance(prod, cons, m), i requires 0 <= i => desc[Slot(cons, i, |desc|)])
  }

  /** Moving an index by `n` places changes the distance by `n`, also across the wrap. */
  lemma DistanceAfterPush(prod: nat, cons: nat, n: nat, m: nat)
    requires m > 0 && Distance(prod, cons, m) + n < m
    ensures Distance(WrapAdd(prod, n, m), cons, m) == Distance(prod, cons, m) + n
  {
    var e, q := (prod - cons) / m, (prod + n) / m;
    MulMinus(e, q, m);
    ModUnique(WrapAdd(prod, n, m) - cons, m, e - q, Distance(prod, cons, m) + n);
  }

  lemma DistanceAfterPop(prod: nat, cons: nat, n: nat, m: nat)
    requires m > 0 && n <= Distance(prod, cons, m)
    ensures Distance(prod, WrapAdd(cons, n, m), m) == Distance(prod, cons, m) - n
  {
    var e, q := (prod - cons) / m, (cons + n) / m;
    MulMinus(e, -q, m);
    MulMinus(0, q, m);
    ModUnique(prod - WrapAdd(cons, n, m), m, e + q, Distance(prod, cons, m) - n);
  }

  /** Indices that stand for absolute counts are as far apart as the counts are. */
  lemma DistanceOfCounts(pushed: nat, popped: nat, m: nat)
    requires m > 0 && popped <= pushed < popped + m
    ensures Distance(pushed % m, popped % m, m) == pushed - popped
  {
    var d: int, r := pushed - popped, popped % m;
    ModAdd(pushed, -r, m);
    assert pushed - r == d + (popped / m) * m;
    ModShift(d, popped / m, m);
    ModUnique(d, m, 0, d);
  }

  /** Slots counted from a moved index continue the slots counted from the old one. */
  lemma SlotAfterWrap(idx: nat, base: nat, n: nat, i: nat, cap: nat, m: nat)
    requires Geometry(cap, m) && idx == WrapAdd(base, n, m)
    ensures Slot(idx, i, cap) == Slot(base, n + i, cap)
  {
    PowersDivide(cap, m);
    ModModAdd(base + n, i, m, cap);
  }

  lemma ProducerSlot(prod: nat, cons: nat, i: nat, cap: nat, m: nat)
    requires Geometry(cap, m) && prod < m
    ensures Slot(prod, i, cap) == Slot(cons, Distance(prod, cons, m) + i, cap)
  {
    var d := Distance(prod, cons, m);
    ModAdd(prod - cons, cons, m);
    ModUnique(prod, m, 0, prod);
    SlotAfterWrap(prod, cons, d, i, cap, m);
  }

  /** The `i`-th slot from an index, for a run that passes the end of the array at most once. */
  lemma ChunkSlot(idx: nat, i: nat, cap: nat)
    requires cap > 0 && i < cap
    ensures Slot(idx, i, cap) == if idx % cap + i < cap then idx % cap + i else idx % cap + i - cap
  {
    ModAdd(idx, i, cap);
    var s := idx % cap + i;
    ModUnique(s, cap, if s < cap then 0 else 1, if s < cap then s else s - cap);
  }

  lemma DistinctSlots(base: nat, i: nat, j: nat, cap: nat)
    requires cap > 0 && i < j < i + cap
    ensures Slot(base, i, cap) != Slot(base, j, cap)
  {
    if Slot(base, i, cap) == Slot(base, j, cap) {
      ModClose(base + i, base + j, cap);
    }
  }

  /** Element-by-element modular store: what a push must leave in the slots. */
  ghost predicate Stored(before: seq<u64>, after: seq<u64>, idx: nat, items: seq<u64>)
    requires |before| > 0
  {
    && |after| == |before|
    && (forall i :: 0 <= i < |items| ==> after[Slot(idx, i, |before|)] == items[i])
    && (forall j :: 0 <= j < |before| && (forall i :: 0 <= i < |items| ==> Slot(idx, i, |before|) != j)
                    ==> after[j] == before[j])
  }

  /** Storing at the producer index, in free slots, appends to the queue: no live slot changes. */
  lemma StoreAppends(before: seq<u64>, after: seq<u64>, prod: nat, cons: nat, items: seq<u64>, m: nat)
    requires Geometry(|before|, m) && prod < m
    requires Distance(prod, cons, m) + |items| <= |before|
    requires Stored(before, after, prod, items)
    ensures Live(after, WrapAdd(prod, |items|, m), cons, m) == Live(before, prod, cons, m) + items
  {
    var cap, d := |before|, Distance(prod, cons, m);
    DistanceAfterPush(prod, cons, |items|, m);
    forall k | 0 <= k < d + |items|
      ensures after[Slot(cons, k, cap)] == (Live(before, prod, cons, m) + items)[k]
    {
      if k < d {
        forall i | 0 <= i < |items|
          ensures Slot(prod, i, cap) != Slot(cons, k, cap)
        {
          ProducerSlot(prod, cons, i, cap, m);
          DistinctSlots(cons, k, d + i, cap);
        }
      } else {
        ProducerSlot(prod, cons, k - d, cap, m);
      }
    }
  }

  /** Advancing the consumer index drops from the front. */
  lemma AdvanceDrops(desc: seq<u64>, prod: nat, cons: nat, n: nat, m: nat)
    requires Geometry(|desc|, m) && n <= Distance(prod, cons, m)
    ensures Live(desc, prod, WrapAdd(cons, n, m), m) == Live(desc, prod, cons, m)[n..]
  {
    DistanceAfterPop(prod, cons, n, m);
    var c := WrapAdd(cons, n, m);
    forall i | 0 <= i < Distance(prod, cons, m) - n
      ensures desc[Slot(c, i, |desc|)] == desc[Slot(cons, n + i, |desc|)]
    {
      SlotAfterWrap(c, cons, n, i, |desc|, m);
    }
  }

  /** Two chunk copies leave what the element-by-element modular store leaves. */
  lemma TwoChunksStore(before: seq<u64>, after: seq<u64>, idx: nat, items: seq<u64>, chunk1: nat)
    requires |before| > 0 && |items| <= |before|
    requires chunk1 == Min(|items|, |before| - idx % |before|)
    requires var first := Patch(before, idx % |before|, items[..chunk1]);
             after == if chunk1 < |items| then Patch(first, 0, items[chunk1..]) else first
    ensures Stored(before, after, idx, items)
  {
    var cap, start := |before|, idx % |before|;
    forall i | 0 <= i < |items|
      ensures Slot(idx, i, cap) == if i < chunk1 then start + i else i - chunk1
    {
      ChunkSlot(idx, i, cap);
    }
    forall j | 0 <= j < cap
      ensures after[j] == before[j] || exists i :: 0 <= i < |items| && Slot(idx, i, cap) == j
    {
      if start <= j < start + chunk1 {
        assert Slot(idx, j - start, cap) == j;
      } else if j < |items| - chunk1 {
        assert Slot(idx, chunk1 + j, cap) == j;
      }
    }
  }

  /** Two chunk copies read what the element-by-element modular load reads. */
  lemma TwoChunksLoad(desc: seq<u64>, idx: nat, n: nat, out: seq<u64>)
    requires |desc| > 0 && n <= |desc|
    requires var chunk1 := Min(n, |desc| - idx % |desc|);
             out == desc[idx % |desc|..idx % |desc| + chunk1] + desc[..n - chunk1]
    ensures |out| == n && forall i :: 0 <= i < n ==> out[i] == desc[Slot(idx, i, |desc|)]
  {
    forall i | 0 <= i < n
      ensures out[i] == desc[Slot(idx, i, |desc|)]
    {
      ChunkSlot(idx, i, |desc|);
    }
  }
}
