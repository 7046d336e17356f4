/** The routing table of `routing/src/lib.rs`: sixteen hash shards, an ordered map with its flat
    next-hop array, and the per-thread caches tagged with a global epoch. This file has the
    table as one thread uses it; `RouteSteps` has every interleaving. */
module RouteTable {
  import opened Bits
  import opened Wire
  import opened OrderedMap
  import opened Selection

  type Shards = s: seq<map<Id, RouteEntry>> | |s| == FAST_SHARDS witness seq(FAST_SHARDS, _ => map[])

  datatype Table = Table(shards: Shards, entries: OMap<RouteEntry>, predictive: seq<Id>)

  /** A completed call of `update_route` or `remove_route`. */
  datatype WriteOp = Put(entry: RouteEntry) | Del(key: Id) {
    function Dest(): Id { match this case Put(e) => e.destId case Del(k) => k }
  }

  function Get(m: map<Id, RouteEntry>, d: Id): Option<RouteEntry> { if d in m then Some(m[d]) else None }

  function ShardGet(shards: Shards, d: Id): Option<RouteEntry> { Get(shards[ShardFor(d)], d) }

  function ShardWrite(shards: Shards, op: WriteOp): Shards {
    var i := ShardFor(op.Dest());
    match op
    case Put(e) =>
      var shard: map<Id, RouteEntry> := shards[i][e.destId := e];
      shards[i := shard]
    case Del(k) =>
      shards[i := shards[i] - {k}]
  }

  function MapWrite(entries: OMap<RouteEntry>, op: WriteOp): OMap<RouteEntry> {
    match op
    case Put(e) => Insert(entries, e.destId, e)
    case Del(k) => Remove(entries, k)
  }

  /** `rebuild_predictive_entries`: the next hops in ascending key order. */
  function NextHops(entries: OMap<RouteEntry>): (hops: seq<Id>)
    ensures |hops| == |entries|
    ensures forall i :: 0 <= i < |entries| ==> hops[i] == entries[i].1.nextHopId
  {
    seq(|entries|, i requires 0 <= i < |entries| => entries[i].1.nextHopId)
  }

  function EmptyTable(): Table { Table(seq(FAST_SHARDS, _ => map[]), [], []) }

  function Write(t: Table, op: WriteOp): Table {
    var entries := MapWrite(t.entries, op);
    Table(ShardWrite(t.shards, op), entries, NextHops(entries))
  }

  /** What a write means, without shards, order or arrays. */
  function Effect(m: map<Id, RouteEntry>, op: WriteOp): map<Id, RouteEntry> {
    match op
    case Put(e) => m[e.destId := e]
    case Del(k) => m - {k}
  }

  /** Each key sits only in its own shard. */
  ghost predicate HomeOnly(shards: Shards) {
    forall i, d :: 0 <= i < FAST_SHARDS && d in shards[i] ==> ShardFor(d) == i
  }

  ghost predicate Represents(t: Table, m: map<Id, RouteEntry>) {
    && HomeOnly(t.shards)
    && (forall d: Id :: ShardGet(t.shards, d) == Get(m, d))
    && Ascending(t.entries)
    && ToMap(t.entries) == m
    && t.predictive == NextHops(t.entries)
  }

  lemma ShardWriteMeaning(shards: Shards, op: WriteOp)
    requires HomeOnly(shards)
    ensures HomeOnly(ShardWrite(shards, op))
    ensures ShardGet(ShardWrite(shards, op), op.Dest()) == (match op case Put(e) => Some(e) case Del(_) => None)
    ensures forall d: Id :: d != op.Dest() ==> ShardGet(ShardWrite(shards, op), d) == ShardGet(shards, d)
  {
  }

  lemma WriteMeaning(t: Table, m: map<Id, RouteEntry>, op: WriteOp)
    requires Represents(t, m)
    ensures Represents(Write(t, op), Effect(m, op))
  {
    ShardWriteMeaning(t.shards, op);
    match op
    case Put(e) => InsertMeaning(t.entries, e.destId, e);
    case Del(k) => RemoveMeaning(t.entries, k);
  }

  function WriteAll(t: Table, ops: seq<WriteOp>): Table
    decreases ops
  {
    if ops == [] then t else Write(WriteAll(t, ops[..|ops| - 1]), ops[|ops| - 1])
  }

  function EffectAll(m: map<Id, RouteEntry>, ops: seq<WriteOp>): map<Id, RouteEntry>
    decreases ops
  {
    if ops == [] then m else Effect(EffectAll(m, ops[..|ops| - 1]), ops[|ops| - 1])
  }

  /** After any serialised updates and removals the shards, the ordered map and the predictive
      array all describe the same routes: those the writes leave. */
  lemma {:induction false} SerialWritesAgree(ops: seq<WriteOp>)
    ensures Represents(WriteAll(EmptyTable(), ops), EffectAll(map[], ops))
  {
    if ops == [] {
      assert HomeOnly(EmptyTable().shards);
    } else {
      SerialWritesAgree(ops[..|ops| - 1]);
      WriteMeaning(WriteAll(EmptyTable(), ops[..|ops| - 1]), EffectAll(map[], ops[..|ops| - 1]), ops[|ops| - 1]);
    }
  }

  // ---------- Lookups on a table ----------

  function NextHop(shards: Shards, d: Id): Option<Id> {
    match ShardGet(shards, d)
    case None => None
    case Some(e) => Some(e.nextHopId)
  }

  function SprayPrimary(shards: Shards, d: Id, flow: u32): Option<Id> {
    match ShardGet(shards, d)
    case None => None
    case Some(e) => Some(PrimaryHop(e, flow))
  }

  /** The channels `lookup_spray_buf` writes into a buffer of `room` places. */
  function SprayChannels(shards: Shards, d: Id, flow: u32, room: nat): seq<Id> {
    match ShardGet(shards, d)
    case None => []
    case Some(e) => SprayOrder(e, flow)[..Min(1 + |e.alternates|, room)]
  }

  /** What `lookup_spray_buf` writes: the flow's own channel first, and where that one was, the next
      hop; every other place has its channel, as far as the buffer goes. */
  lemma SprayChannelsMeaning(shards: Shards, d: Id, flow: u32, room: nat, e: RouteEntry)
    requires ShardGet(shards, d) == Some(e)
    ensures var c, n := SprayChannels(shards, d, flow, room), 1 + |e.alternates|;
            var own := flow % n;
            && |c| == Min(n, room)
            && (0 < room ==> c[0] == Channels(e)[own] && Some(c[0]) == SprayPrimary(shards, d, flow))
            && (forall i :: 0 < i < |c| ==> c[i] == if i == own then e.nextHopId else e.alternates[i - 1])
            && (forall i :: 0 <= i < |c| ==> c[i] == SingleHop(e, flow, i))
            && (room >= n ==> multiset(c) == multiset(Channels(e)))
  {
    var c, n := SprayChannels(shards, d, flow, room), 1 + |e.alternates|;
    PrimaryIsHead(e, flow);
    SprayOrderPermutes(e, flow);
    hide ShardGet, PrimaryHop, SingleHop;
    forall i | 0 <= i < |c|
      ensures c[i] == SingleHop(e, flow, i)
    {
      SingleIsNth(e, flow, i);
      ModUnique(i, n, 0, i);
    }
    if room >= n {
      assert c == SprayOrder(e, flow);
    }
  }

  /** `lookup_predictive_fallback`. */
  function Predict(predictive: seq<Id>, src: Id, dst: Id, flow: u32): Option<Id> {
    PredictAt(predictive, FlowHash(src, dst, flow))
  }

  /** The fallback answers with the entry that the hash of ends and label falls to. */
  lemma PredictMeaning(predictive: seq<Id>, src: Id, dst: Id, flow: u32, i: nat)
    requires i < |predictive|
    requires var n, h := |predictive|, FlowHash(src, dst, flow);
             if IsPowerOfTwo(n) then i == h % n else i * TWO_TO_64 <= h * n < (i + 1) * TWO_TO_64
    ensures Predict(predictive, src, dst, flow) == Some(predictive[i])
  {
    PredictAtMeaning(predictive, FlowHash(src, dst, flow), i);
  }

  /** `lookup_or_predict`. */
  function LookupOrPredict(t: Table, src: Id, dst: Id, flow: u32): Option<Id> {
    match NextHop(t.shards, dst)
    case Some(nh) => Some(nh)
    case None => Predict(t.predictive, src, dst, flow)
  }

  /** Whether there is any answer depends on the shard and on the array being empty. */
  lemma RouteExists(t: Table, src: Id, dst: Id, flow: u32)
    ensures LookupOrPredict(t, src, dst, flow)
            == if ShardGet(t.shards, dst).Some? then Some(ShardGet(t.shards, dst).value.nextHopId)
               else PredictAt(t.predictive, FlowHash(src, dst, flow))
    ensures LookupOrPredict(t, src, dst, flow).Some? <==> ShardGet(t.shards, dst).Some? || t.predictive != []
  {
    hide ShardGet, FlowHash, PredictIndex;
  }

  /** What the array of an ordered map predicts. */
  lemma PredictFromMap(entries: OMap<RouteEntry>, src: Id, dst: Id, flow: u32)
    requires Ascending(entries)
    ensures var r := Predict(NextHops(entries), src, dst, flow);
            && (r == None <==> ToMap(entries) == map[])
            && (r.Some? ==> exists k :: k in ToMap(entries) && ToMap(entries)[k].nextHopId == r.value)
  {
    var hops := NextHops(entries);
    if hops != [] {
      var i := PredictAtCovers(hops, FlowHash(src, dst, flow));
      PairsAreMap(entries, i);
      assert entries[i].0 in ToMap(entries);
    }
  }

  /** The fallback answers exactly when there is a route at all, and then with the next hop of
      some current route. */
  lemma PredictIsTotal(t: Table, m: map<Id, RouteEntry>, src: Id, dst: Id, flow: u32)
    requires Represents(t, m)
    ensures Predict(t.predictive, src, dst, flow) == None <==> m == map[]
    ensures Predict(t.predictive, src, dst, flow).Some? ==>
              exists k :: k in m && m[k].nextHopId == Predict(t.predictive, src, dst, flow).value
  {
    PredictFromMap(t.entries, src, dst, flow);
  }

  // ---------- The caches ----------

  /** Per-thread direct-mapped cache of `lookup_next_hop`. */
  class HopCache {
    const epochs: array<nat>
    const destIds: array<Id>
    const nextHops: array<Id>

    ghost predicate Valid() {
      epochs.Length == HOT_CACHE_SIZE && destIds.Length == HOT_CACHE_SIZE && nextHops.Length == HOT_CACHE_SIZE
      && destIds != nextHops
    }

    /** Tags are not from the future, and a current tag vouches for the slot. */
    ghost predicate Coherent(shards: Shards, epoch: nat)
      reads epochs, destIds, nextHops
    {
      && Valid()
      && forall i :: 0 <= i < HOT_CACHE_SIZE ==>
          epochs[i] <= epoch && (epochs[i] == epoch ==> NextHop(shards, destIds[i]) == Some(nextHops[i]))
    }

    constructor ()
      ensures Valid() && fresh(epochs) && fresh(destIds) && fresh(nextHops)
      ensures forall shards: Shards, epoch: nat :: epoch >= 1 ==> Coherent(shards, epoch)
    {
      epochs := new nat[HOT_CACHE_SIZE](_ => 0);
      destIds := new Id[HOT_CACHE_SIZE](_ => seq(32, _ => 0));
      nextHops := new Id[HOT_CACHE_SIZE](_ => seq(32, _ => 0));
    }
  }

  /** Per-thread direct-mapped cache of `lookup_spray_primary`. */
  class SprayCache {
    const epochs: array<nat>
    const destIds: array<Id>
    const flowLabels: array<u32>
    const nextHops: array<Id>

    ghost predicate Valid() {
      && epochs.Length == HOT_CACHE_SIZE && destIds.Length == HOT_CACHE_SIZE
      && flowLabels.Length == HOT_CACHE_SIZE && nextHops.Length == HOT_CACHE_SIZE
      && destIds != nextHops && epochs as object != flowLabels
    }

    ghost predicate Coherent(shards: Shards, epoch: nat)
      reads epochs, destIds, flowLabels, nextHops
    {
      && Valid()
      && forall i :: 0 <= i < HOT_CACHE_SIZE ==>
          && epochs[i] <= epoch
          && (epochs[i] == epoch ==> SprayPrimary(shards, destIds[i], flowLabels[i]) == Some(nextHops[i]))
    }

    constructor ()
      ensures Valid() && fresh(epochs) && fresh(destIds) && fresh(flowLabels) && fresh(nextHops)
      ensures forall shards: Shards, epoch: nat :: epoch >= 1 ==> Coherent(shards, epoch)
    {
      epochs := new nat[HOT_CACHE_SIZE](_ => 0);
      destIds := new Id[HOT_CACHE_SIZE](_ => seq(32, _ => 0));
      flowLabels := new u32[HOT_CACHE_SIZE](_ => 0);
      nextHops := new Id[HOT_CACHE_SIZE](_ => seq(32, _ => 0));
    }
  }

  /** The table with the epoch that validates the caches of every thread. */
  class LiveTable {
    var shards: Shards
    var entries: OMap<RouteEntry>
    var predictive: seq<Id>
    var epoch: nat

    ghost function View(): Table
      reads this
    {
      Table(shards, entries, predictive)
    }

    constructor ()
      ensures View() == EmptyTable() && epoch == 1
    {
      shards, entries, predictive := seq(FAST_SHARDS, _ => map[]), [], [];
      epoch := 1;
    }

    /** `update_route`, with the clock reading it stamps the entry with. Caches that agreed
        with the table before agree with it after, without being touched. */
    method UpdateRoute(e: RouteEntry, now: nat, ghost hops: set<HopCache>, ghost sprays: set<SprayCache>)
      requires forall c :: c in hops ==> c.Coherent(shards, epoch)
      requires forall c :: c in sprays ==> c.Coherent(shards, epoch)
      modifies this
      ensures View() == Write(old(View()), Put(e.(lastSeen := now))) && epoch == old(epoch) + 1
      ensures forall c :: c in hops ==> c.Coherent(shards, epoch)
      ensures forall c :: c in sprays ==> c.Coherent(shards, epoch)
    {
      var stamped := e.(lastSeen := now);
      var i := ShardFor(stamped.destId);
      var shard: map<Id, RouteEntry> := shards[i][stamped.destId := stamped];
      shards := shards[i := shard];
      entries := Insert(entries, stamped.destId, stamped);
      predictive := NextHops(entries);
      epoch := epoch + 1;
    }

    /** `remove_route`. */
    method RemoveRoute(d: Id, ghost hops: set<HopCache>, ghost sprays: set<SprayCache>)
      requires forall c :: c in hops ==> c.Coherent(shards, epoch)
      requires forall c :: c in sprays ==> c.Coherent(shards, epoch)
      modifies this
      ensures View() == Write(old(View()), Del(d)) && epoch == old(epoch) + 1
      ensures forall c :: c in hops ==> c.Coherent(shards, epoch)
      ensures forall c :: c in sprays ==> c.Coherent(shards, epoch)
    {
      var i := ShardFor(d);
      shards := shards[i := shards[i] - {d}];
      entries := Remove(entries, d);
      predictive := NextHops(entries);
      epoch := epoch + 1;
    }

    /** `lookup_next_hop`: the cached lookup answers what the shard holds. */
    method LookupNextHop(cache: HopCache, dst: Id) returns (r: Option<Id>)
      requires cache.Coherent(shards, epoch)
      modifies cache.epochs, cache.destIds, cache.nextHops
      ensures cache.Coherent(shards, epoch)
      ensures r == NextHop(shards, dst)
      ensures var i := SimpleCacheIndex(dst);
              && (forall j :: 0 <= j < HOT_CACHE_SIZE && j != i ==>
                    && cache.epochs[j] == old(cache.epochs[j])
                    && cache.destIds[j] == old(cache.destIds[j]) && cache.nextHops[j] == old(cache.nextHops[j]))
              && (r.Some? ==> cache.epochs[i] == epoch && cache.destIds[i] == dst && cache.nextHops[i] == r.value)
    {
      var i := SimpleCacheIndex(dst);
      if cache.epochs[i] == epoch && cache.destIds[i] == dst {
        return Some(cache.nextHops[i]);
      }
      match ShardGet(shards, dst)
      case Some(e) =>
        cache.epochs[i] := epoch;
        cache.destIds[i] := dst;
        cache.nextHops[i] := e.nextHopId;
        return Some(e.nextHopId);
      case None =>
        return None;
    }

    /** `lookup_spray_primary`: the same for the (destination, flow) cache. */
    method LookupSprayPrimary(cache: SprayCache, dst: Id, flow: u32) returns (r: Option<Id>)
      requires cache.Coherent(shards, epoch)
      modifies cache.epochs, cache.destIds, cache.flowLabels, cache.nextHops
      ensures cache.Coherent(shards, epoch)
      ensures r == SprayPrimary(shards, dst, flow)
      ensures r.Some? ==>
                var i := SprayCacheIndex(dst, flow);
                cache.epochs[i] == epoch && cache.destIds[i] == dst && cache.flowLabels[i] == flow
                && cache.nextHops[i] == r.value
    {
      var i := SprayCacheIndex(dst, flow);
      if cache.epochs[i] == epoch && cache.flowLabels[i] == flow && cache.destIds[i] == dst {
        return Some(cache.nextHops[i]);
      }
      match ShardGet(shards, dst)
      case Some(e) =>
        var nh := PrimaryHop(e, flow);
        cache.epochs[i] := epoch;
        cache.destIds[i] := dst;
        cache.flowLabels[i] := flow;
        cache.nextHops[i] := nh;
        return Some(nh);
      case None =>
        return None;
    }

    /** `lookup_spray_buf`: fills the front of the caller's buffer and leaves the rest alone. */
    method LookupSprayBuf(dst: Id, flow: u32, buf: array<(Id, bool)>) returns (count: nat)
      modifies buf
      ensures var channels := SprayChannels(shards, dst, flow, buf.Length);
              && count == |channels|
              && (forall i :: 0 <= i < count ==> buf[i] == (channels[i], i == 0))
              && (forall i :: count <= i < buf.Length ==> buf[i] == old(buf[i]))
    {
      match ShardGet(shards, dst)
      case None =>
        return 0;
      case Some(e) =>
        hide ShardGet, SprayOrder;
        count := FillSpray(e, flow, buf);
    }

    /** The part of `lookup_spray_buf` under the found entry. */
    static method FillSpray(e: RouteEntry, flow: u32, buf: array<(Id, bool)>) returns (count: nat)
      modifies buf
      ensures count == Min(1 + |e.alternates|, buf.Length)
      ensures forall i :: 0 <= i < count ==> buf[i] == (SprayOrder(e, flow)[i], i == 0)
      ensures forall i :: count <= i < buf.Length ==> buf[i] == old(buf[i])
    {
      var total := 1 + |e.alternates|;
      count := Min(total, buf.Length);
      if count == 0 {
        return 0;
      }
      ReduceIsMod(flow, total);
      if total == 1 {
        buf[0] := (e.nextHopId, true);
        return 1;
      }
      var own := Reduce(flow, total);
      buf[0] := (if own == 0 then e.nextHopId else e.alternates[own - 1], true);
      for i := 1 to count
        invariant forall j :: 0 <= j < i ==> buf[j] == (SprayOrder(e, flow)[j], j == 0)
        invariant forall j :: i <= j < buf.Length ==> buf[j] == old(buf[j])
      {
        buf[i] := (if i == own then e.nextHopId else e.alternates[i - 1], false);
      }
    }
  }
}
