/** The batch engine of `datapath/src/lib.rs`: every path writes its outputs into one arena with
    unchecked appends after a single reservation, and is proved against `Packets`. */
module Forwarding {
  import opened Bits
  import opened Wire
  import opened Session
  import opened RouteTable
  import opened Packets
  import opened PacketLaws
  import opened Arena
  import opened SliceRings

  const PARALLEL_BATCH_THRESHOLD: nat := 1024

  lemma PatchInFront(data: seq<byte>, n: nat, at: nat, b: seq<byte>)
    requires n <= |data| && at + |b| <= n
    ensures Patch(data, at, b)[..n] == Patch(data[..n], at, b)
  {
  }

  /** Replacing the payload behind what was already in the arena. */
  lemma SealedBehind(front: seq<byte>, q: Packet, n: nat, ct: seq<byte>)
    requires |q| >= HEADER_SIZE + n && |ct| == n
    ensures Patch(front + q[..HEADER_SIZE + n], |front| + HEADER_SIZE, ct) == front + q[..HEADER_SIZE] + ct
  {
  }

  lemma RedirectBehind(front: seq<byte>, p: Packet, n: nat, nh: Id)
    requires |p| >= n >= HEADER_SIZE
    ensures Patch(front + p[..n], |front| + DST_OFFSET, nh) == front + Redirect(p, nh)[..n]
  {
  }

  class Forwarder {
    const arena: AlignedBuffer
    var offsets: seq<(nat, nat)>
    var routes: Table
    const session: Option<Session>

    ghost predicate Valid()
      reads this, arena
    {
      arena.Valid() && ValidSession(session)
    }

    /** What the arena and the offsets hold, with the statistics so far. */
    ghost function Out(stats: Stats): Sent
      requires Valid()
      reads this, arena, arena.data
    {
      Sent(arena.Contents(), offsets, stats)
    }

    constructor (routes: Table, session: Option<Session>)
      requires ValidSession(session)
      ensures Valid() && this.routes == routes && this.session == session
    {
      arena := new AlignedBuffer.WithCapacity(INITIAL_CAPACITY);
      offsets := [];
      this.routes := routes;
      this.session := session;
    }

    // ---------- Pieces shared by the paths ----------

    /** Record an output that ends at the end of the arena and starts at `start`. */
    method Finish(start: nat, encrypted: bool, missed: bool, stats: Stats) returns (st: Stats)
      requires Valid() && start <= arena.len
      modifies this`offsets
      ensures Valid()
      ensures var o := Output(arena.Contents()[start..], encrypted, missed);
              st == Count(stats, o) && offsets == old(offsets) + [(start, |o.bytes|)]
    {
      offsets := offsets + [(start, arena.len - start)];
      st := stats.(forwarded := stats.forwarded + (if encrypted then 0 else 1),
                   encrypted := stats.encrypted + (if encrypted then 1 else 0),
                   routeMisses := stats.routeMisses + (if missed then 1 else 0));
    }

    /** Append a whole packet, redirected or not, as one output. */
    method PassOn(p: Packet, hop: Option<Id>, missed: bool, stats: Stats) returns (st: Stats)
      requires Valid() && arena.len + |p| <= arena.data.Length
      requires hop.Some? ==> |p| >= HEADER_SIZE
      modifies this`offsets, arena`len, arena.data
      ensures Valid() && arena.data == old(arena.data)
      ensures Out(st) == Emit(old(Out(stats)), Output(if hop.Some? then Redirect(p, hop.value) else p, false, missed))
    {
      var start := arena.len;
      ghost var front := arena.Contents();
      arena.ExtendUnchecked(p);
      if hop.Some? {
        RedirectBehind(front, p, |p|, hop.value);
        arena.Overwrite(start + DST_OFFSET, hop.value);
        assert p[..|p|] == p && Redirect(p, hop.value)[..|p|] == Redirect(p, hop.value);
      }
      st := Finish(start, false, missed, stats);
    }

    /** Encrypt initialised bytes of the arena in place. */
    method EncryptInArena(s: Session, lo: nat, hi: nat, seqNum: u64) returns (r: Result<seq<byte>>)
      requires s.Valid() && arena.Valid() && lo <= hi <= arena.len
      modifies arena.data
      ensures arena.Valid()
      ensures match EncryptDetached(s, old(arena.Contents())[lo..hi], seqNum)
              case Ok(x) => r == Ok(x.tag) && arena.Contents() == Patch(old(arena.Contents()), lo, x.ciphertext)
              case Err(e) => r == Err(e) && arena.Contents() == old(arena.Contents())
    {
      ghost var before := arena.data[..];
      assert arena.Contents()[lo..hi] == arena.data[lo..hi];
      ghost var spec := EncryptDetached(s, arena.data[lo..hi], seqNum);
      r := EncryptIntoSlice(s, arena.data, lo, hi, seqNum);
      assert before[..arena.len] == old(arena.Contents());
      if spec.Ok? {
        PatchInFront(before, arena.len, lo, spec.value.ciphertext);
      }
    }

    /** Header and payload in one copy, then the destination overwritten in the arena. */
    method AppendHead(p: Packet, hop: Option<Id>, n: nat)
      requires arena.Valid() && |p| >= n >= HEADER_SIZE
      requires arena.len + n <= arena.data.Length
      modifies arena`len, arena.data
      ensures arena.Valid() && arena.data == old(arena.data) && arena.len == old(arena.len) + n
      ensures arena.Contents() == old(arena.Contents()) + Aimed(p, hop)[..n]
    {
      ghost var front := arena.Contents();
      var start := arena.len;
      arena.ExtendUnchecked(p[..n]);
      if hop.Some? {
        RedirectBehind(front, p, n, hop.value);
        arena.Overwrite(start + DST_OFFSET, hop.value);
      }
    }

    /** Encrypts the payload of a packet just appended behind `front`. */
    method EncryptAppended(s: Session, ghost front: seq<byte>, ghost q: Packet, start: nat, n: nat, seqNum: u64)
      returns (r: Result<seq<byte>>)
      requires s.Valid() && arena.Valid() && |q| >= HEADER_SIZE + n
      requires start == |front| && arena.Contents() == front + q[..HEADER_SIZE + n]
      modifies arena.data
      ensures arena.Valid()
      ensures match EncryptDetached(s, q[HEADER_SIZE..HEADER_SIZE + n], seqNum)
              case Ok(x) => r == Ok(x.tag) && arena.Contents() == front + q[..HEADER_SIZE] + x.ciphertext
              case Err(e) => r == Err(e) && arena.Contents() == front + q[..HEADER_SIZE + n]
    {
      ghost var sealed := EncryptDetached(s, q[HEADER_SIZE..HEADER_SIZE + n], seqNum);
      assert sealed.Ok? ==> |sealed.value.ciphertext| == n;
      SliceBehind(front, q, n);
      hide EncryptDetached;
      r := EncryptInArena(s, start + HEADER_SIZE, start + HEADER_SIZE + n, seqNum);
      if sealed.Ok? {
        SealedBehind(front, q, n, sealed.value.ciphertext);
      }
    }

    /** Header and payload appended, the payload encrypted in place, the tag appended and, if asked
        for, what followed the payload. On failure header and payload stay for the caller to
        truncate. */
    method AppendSealed(p: Packet, hop: Option<Id>, s: Session, keep: bool) returns (ok: bool)
      requires arena.Valid() && s.Valid() && |p| >= HEADER_SIZE && Fits(p)
      requires arena.len + |SealedOrHead(p, hop, s, keep)| <= arena.data.Length
      modifies arena`len, arena.data
      ensures arena.Valid() && arena.data == old(arena.data)
      ensures ok == Seal(s, p).Ok?
      ensures arena.Contents() == old(arena.Contents()) + SealedOrHead(p, hop, s, keep)
    {
      ghost var front, q := arena.Contents(), Aimed(p, hop);
      var start, end, seqNum := arena.len, HEADER_SIZE + LengthOf(p), SeqNumOf(p);
      PayloadBehind(p, hop);
      ghost var sealed := EncryptDetached(s, q[HEADER_SIZE..end], seqNum);
      assert sealed.Ok? ==> |sealed.value.tag| == TAG_SIZE && |sealed.value.ciphertext| == end - HEADER_SIZE;
      ghost var rest := if keep && |p| > end then p[end..] else [];
      SealedOrHeadIs(p, hop, s, keep);
      hide Aimed, Seal, Fits, Payload, SealedOrHead, EncryptDetached;
      AppendHead(p, hop, end);
      var r := EncryptAppended(s, front, q, start, end - HEADER_SIZE, seqNum);
      ok := r.Ok?;
      if ok {
        arena.ExtendUnchecked(r.value);
        if keep && |p| > end {
          arena.ExtendUnchecked(p[end..]);
        }
        Reassociate(front, q[..HEADER_SIZE], sealed.value.ciphertext, sealed.value.tag, rest);
      }
    }

    // ---------- One packet on each path ----------

    /** `handle_packet`: true when the packet was encrypted into the arena. */
    method HandlePacket(p: Packet, stats: Stats) returns (forwarded: bool, st: Stats)
      requires Valid() && arena.len + |p| + TAG_SIZE <= arena.data.Length
      modifies this`offsets, arena`len, arena.data
      ensures Valid() && arena.data == old(arena.data)
      ensures var o := SerialOutput(routes, session, p);
              && forwarded == o.encrypted
              && (forwarded ==> Out(st) == Emit(old(Out(stats)), o))
              && (!forwarded ==> o.bytes == p && arena.Contents() == old(arena.Contents()) && offsets == old(offsets)
                                 && st == stats.(routeMisses := stats.routeMisses + (if o.missed then 1 else 0)))
    {
      forwarded, st := false, stats;
      if |p| >= HEADER_SIZE {
        var hit := false;
        if NextHop(routes.shards, DstIdOf(p)).Some? {
          hit := true;
        } else if Predict(routes.predictive, SrcIdOf(p), DstIdOf(p), FlowLabelOf(p)).Some? {
          hit := true;
        } else {
          st := stats.(routeMisses := stats.routeMisses + 1);
        }
        assert hit == HasRoute(routes, p);
        hide HasRoute, AlignedBuffer.Contents;
        if hit && session.Some? {
          if Fits(p) {
            var start := arena.len;
            ghost var before := arena.Contents();
            var ok := AppendSealed(p, None, session.value, false);
            if ok {
              st := Finish(start, true, false, stats);
              forwarded := true;
            } else {
              arena.Truncate(start);
              assert arena.Contents() == before;
              st := stats.(routeMisses := stats.routeMisses + 1);
            }
          } else if LengthOf(p) > 0 {
            st := stats.(routeMisses := stats.routeMisses + 1);
          }
        }
      }
    }

    /** The loop body of the serial and the slice path. */
    method ForwardSerial(p: Packet, stats: Stats) returns (st: Stats)
      requires Valid() && arena.len + |p| + TAG_SIZE <= arena.data.Length
      modifies this`offsets, arena`len, arena.data
      ensures Valid() && arena.data == old(arena.data) && arena.len <= old(arena.len) + |p| + TAG_SIZE
      ensures Out(st) == Emit(old(Out(stats)), SerialOutput(routes, session, p))
    {
      OutputsFit(routes, session, p);
      hide SerialOutput;
      var forwarded;
      forwarded, st := HandlePacket(p, stats);
      if !forwarded {
        st := PassOn(p, None, false, st);
      }
    }

    /** The loop body of the primary-spray path. */
    method ForwardPrimary(p: Packet, stats: Stats) returns (st: Stats)
      requires Valid() && arena.len + |p| + TAG_SIZE <= arena.data.Length
      modifies this`offsets, arena`len, arena.data
      ensures Valid() && arena.data == old(arena.data) && arena.len <= old(arena.len) + |p| + TAG_SIZE
      ensures Out(st) == Emit(old(Out(stats)), PrimaryOutput(routes, session, p))
    {
      OutputsFit(routes, session, p);
      if |p| < HEADER_SIZE {
        st := PassOn(p, None, true, stats);
        return;
      }
      var hop := SprayPrimary(routes.shards, DstIdOf(p), FlowLabelOf(p));
      if hop.None? {
        st := PassOn(p, None, true, stats);
        return;
      }
      assert PrimaryOutput(routes, session, p) == Sprayed(session, p, hop.value);
      hide PrimaryOutput;
      st := SprayTo(p, hop.value, stats);
    }

    /** A primary-spray packet whose hop is known. */
    method SprayTo(p: Packet, hop: Id, stats: Stats) returns (st: Stats)
      requires Valid() && |p| >= HEADER_SIZE && arena.len + |p| + TAG_SIZE <= arena.data.Length
      modifies this`offsets, arena`len, arena.data
      ensures Valid() && arena.data == old(arena.data)
      ensures Out(st) == Emit(old(Out(stats)), Sprayed(session, p, hop))
    {
      var start := arena.len;
      ghost var before := arena.Contents();
      var encrypted, missed := false, false;
      if Fits(p) {
        if session.Some? {
          encrypted := AppendSealed(p, Some(hop), session.value, true);
          missed := !encrypted;
        } else {
          AppendHead(p, Some(hop), HEADER_SIZE + LengthOf(p));
        }
      } else {
        AppendHead(p, Some(hop), HEADER_SIZE);
        missed := LengthOf(p) > 0;
      }
      if missed {
        arena.Truncate(start);
        assert arena.Contents() == before;
        st := PassOn(p, Some(hop), true, stats);
      } else {
        st := Finish(start, encrypted, false, stats);
      }
    }

    /** One full-spray copy; without a hop, the packet of a destination without channels. */
    method ForwardCopy(p: Packet, hop: Option<Id>, stats: Stats) returns (st: Stats)
      requires Valid() && |p| >= HEADER_SIZE
      requires arena.len + |FullOutput(routes, session, Aimed(p, hop)).bytes| <= arena.data.Length
      modifies this`offsets, arena`len, arena.data
      ensures Valid() && arena.data == old(arena.data)
      ensures arena.len == old(arena.len) + |FullOutput(routes, session, Aimed(p, hop)).bytes|
      ensures Out(st) == Emit(old(Out(stats)), FullOutput(routes, session, Aimed(p, hop)))
    {
      var dst := if hop.Some? then hop.value else DstIdOf(p);
      var routeExists := LookupOrPredict(routes, SrcIdOf(p), dst, FlowLabelOf(p)).Some?;
      CopyOutput(routes, session, p, hop);
      hide FullOutput, Aimed, LookupOrPredict, SealedOrHead, Payload;
      if routeExists && session.Some? && Fits(p) {
        var start := arena.len;
        ghost var before := arena.Contents();
        var ok := AppendSealed(p, hop, session.value, true);
        if ok {
          st := Finish(start, true, false, stats);
        } else {
          arena.Truncate(start);
          assert arena.Contents() == before;
          st := PassOn(p, hop, true, stats);
        }
      } else {
        st := PassOn(p, hop, !routeExists || (session.Some? && LengthOf(p) > 0), stats);
      }
    }

    /** `encrypt_packet_owned` behind the lookup of `process_packet_owned` (and the consuming
        variant, which does the same): the packet is resized and encrypted in its own buffer. */
    method ProcessOwned(p: Packet) returns (o: Output)
      requires Valid()
      ensures o == OwnedOutput(routes, session, p)
    {
      if |p| < HEADER_SIZE {
        return Output(p, false, false);
      }
      if LookupOrPredict(routes, SrcIdOf(p), DstIdOf(p), FlowLabelOf(p)).None? {
        return Output(p, false, true);
      }
      if session.None? {
        return Output(p, false, false);
      }
      if !Fits(p) {
        return Output(p, false, LengthOf(p) > 0);
      }
      var end := HEADER_SIZE + LengthOf(p);
      var target := end + TAG_SIZE;
      var buf: Packet := p;
      if |buf| < target {
        buf := buf + seq(target - |buf|, _ => 0);
      }
      assert buf == FailedBytes(p, CoverTail);
      assert buf[HEADER_SIZE..end] == Payload(p);
      match EncryptDetached(session.value, buf[HEADER_SIZE..end], SeqNumOf(p))
      case Err(_) =>
        return Output(buf, false, true);
      case Ok(x) =>
        CoverBytes(p, buf, x);
        buf := Patch(buf, HEADER_SIZE, x.ciphertext);
        buf := Patch(buf, end, x.tag);
        return Output(buf, true, false);
    }

    // ---------- Batches ----------

    /** Empty the arena and reserve room for the whole batch at once. */
    method Begin(additional: nat)
      requires Valid()
      modifies this`offsets, arena
      ensures Valid() && arena.Contents() == [] && arena.len == 0 && offsets == []
      ensures arena.data.Length == Reserved(old(arena.data.Length), additional)
      ensures arena.data == old(arena.data) || fresh(arena.data)
    {
      arena.Clear();
      offsets := [];
      arena.Reserve(additional);
    }

    /** The serial path of `process_batch`, up to the send; every append is within what was
        reserved, because the precondition of each is proved here. */
    method RunSerial(frames: seq<Packet>) returns (stats: Stats)
      requires Valid()
      modifies this`offsets, arena, arena.data
      ensures Valid()
      ensures Out(stats) == EmitAll(Nothing(|frames|), SerialOutputs(routes, session, frames))
    {
      hide SerialOutput, Need, EmitAll, Emit;
      ghost var outs := SerialOutputs(routes, session, frames);
      Begin(Need(frames));
      stats := Stats(|frames|, 0, 0, 0);
      StartOfBatch(|frames|, outs, frames);
      for i := 0 to |frames|
        invariant Valid() && arena.data.Length >= Need(frames) && arena.len <= Need(frames[..i])
        invariant Out(stats) == EmitAll(Nothing(|frames|), outs[..i])
        invariant arena.data == old(arena.data) || fresh(arena.data)
      {
        NeedStep(frames, i);
        EmitStep(Nothing(|frames|), outs, i);
        stats := ForwardSerial(frames[i], stats);
      }
      assert outs[..|frames|] == outs;
    }

    /** The primary-spray path of `process_batch_mcr`. */
    method RunPrimary(frames: seq<Packet>) returns (stats: Stats)
      requires Valid()
      modifies this`offsets, arena, arena.data
      ensures Valid()
      ensures Out(stats) == EmitAll(Nothing(|frames|), PrimaryOutputs(routes, session, frames))
    {
      hide PrimaryOutput, Need, EmitAll, Emit;
      ghost var outs := PrimaryOutputs(routes, session, frames);
      Begin(Need(frames));
      stats := Stats(|frames|, 0, 0, 0);
      StartOfBatch(|frames|, outs, frames);
      for i := 0 to |frames|
        invariant Valid() && arena.data.Length >= Need(frames) && arena.len <= Need(frames[..i])
        invariant Out(stats) == EmitAll(Nothing(|frames|), outs[..i])
        invariant arena.data == old(arena.data) || fresh(arena.data)
      {
        NeedStep(frames, i);
        EmitStep(Nothing(|frames|), outs, i);
        stats := ForwardPrimary(frames[i], stats);
      }
      assert outs[..|frames|] == outs;
    }

    /** One copy for each channel. */
    method ForwardChannels(p: Packet, channels: seq<Id>, stats: Stats) returns (st: Stats)
      requires Valid() && |p| >= HEADER_SIZE
      requires var outs := FullOutputs(routes, session, RedirectAll(p, channels));
               arena.len + TotalBytes(outs) <= arena.data.Length
      modifies this`offsets, arena`len, arena.data
      ensures Valid() && arena.data == old(arena.data)
      ensures Out(st) == EmitAll(old(Out(stats)), FullOutputs(routes, session, RedirectAll(p, channels)))
    {
      ChannelOutputs(routes, session, p, channels, Out(stats));
      hide FullOutput, FullOutputs, RedirectAll, Redirect, TotalBytes, EmitAll, Emit, Aimed;
      ghost var outs := FullOutputs(routes, session, RedirectAll(p, channels));
      st := ForwardEach(p, channels, stats, outs, Out(stats), arena.len);
    }

    /** The loop over the channels, with the outputs it is to produce. */
    method ForwardEach(p: Packet, channels: seq<Id>, stats: Stats,
                       ghost outs: seq<Output>, ghost before: Sent, ghost start: nat)
      returns (st: Stats)
      requires Valid() && |p| >= HEADER_SIZE && |channels| == |outs|
      requires forall i :: 0 <= i < |channels| ==> outs[i] == FullOutput(routes, session, Aimed(p, Some(channels[i])))
      requires start == arena.len && start + TotalBytes(outs) <= arena.data.Length
      requires before == Out(stats) == EmitAll(before, outs[..0]) && TotalBytes(outs[..0]) == 0
      modifies this`offsets, arena`len, arena.data
      ensures Valid() && arena.data == old(arena.data)
      ensures Out(st) == EmitAll(before, outs)
    {
      hide FullOutput, TotalBytes, EmitAll, Emit, Aimed;
      st := stats;
      for i := 0 to |channels|
        invariant Valid() && arena.len == start + TotalBytes(outs[..i])
        invariant Out(st) == EmitAll(before, outs[..i])
      {
        TotalStep(outs, i);
        EmitStep(before, outs, i);
        st := ForwardCopy(p, Some(channels[i]), st);
      }
      assert outs[..|channels|] == outs;
    }

    /** All copies of one frame in full spray. */
    method ForwardCopies(p: Packet, stats: Stats) returns (st: Stats)
      requires Valid()
      requires arena.len + TotalBytes(FullOutputs(routes, session, Copies(routes, p))) <= arena.data.Length
      modifies this`offsets, arena`len, arena.data
      ensures Valid() && arena.data == old(arena.data)
      ensures Out(st) == EmitAll(old(Out(stats)), FullOutputs(routes, session, Copies(routes, p)))
    {
      if |p| >= HEADER_SIZE {
        var channels := SprayChannels(routes.shards, DstIdOf(p), FlowLabelOf(p), MAX_CHANNELS);
        if channels != [] {
          assert Copies(routes, p) == RedirectAll(p, channels);
          hide Copies;
          st := ForwardChannels(p, channels, stats);
          return;
        }
      }
      assert Copies(routes, p) == [p];
      hide Copies;
      st := ForwardAlone(p, stats);
    }

    /** A frame without a whole header or without channels is its own only copy. */
    method ForwardAlone(p: Packet, stats: Stats) returns (st: Stats)
      requires Valid()
      requires arena.len + TotalBytes(FullOutputs(routes, session, [p])) <= arena.data.Length
      modifies this`offsets, arena`len, arena.data
      ensures Valid() && arena.data == old(arena.data)
      ensures Out(st) == EmitAll(old(Out(stats)), FullOutputs(routes, session, [p]))
    {
      SingleCopy(routes, session, p, Out(stats));
      hide FullOutputs, TotalBytes, EmitAll;
      if |p| < HEADER_SIZE {
        st := PassOn(p, None, true, stats);
      } else {
        hide FullOutput;
        st := ForwardCopy(p, None, stats);
      }
    }

    /** The serial full-spray path of `process_batch_mcr`. Three times the batch is reserved; what
        is asked for here is no more than that the bytes it appends without a check fit what the
        reservation leaves (`PacketLaws.ReservationCoversBatch` says when they always do). */
    method RunFullSerial(frames: seq<Packet>) returns (stats: Stats)
      requires Valid()
      requires TotalBytes(FullOutputs(routes, session, AllCopies(routes, frames)))
               <= Reserved(arena.data.Length, 3 * Need(frames))
      modifies this`offsets, arena, arena.data
      ensures Valid()
      ensures Out(stats) == EmitAll(Nothing(|frames|), FullOutputs(routes, session, AllCopies(routes, frames)))
    {
      hide FullOutput, FullOutputs, Need, TotalBytes, EmitAll, Emit, Copies, AllCopies;
      ghost var room := Reserved(arena.data.Length, 3 * Need(frames));
      Begin(3 * Need(frames));
      stats := Stats(|frames|, 0, 0, 0);
      NoCopiesYet(|frames|, routes, session, frames);
      for i := 0 to |frames|
        invariant Valid() && arena.data.Length == room
        invariant Out(stats) == EmitAll(Nothing(|frames|), FullOutputs(routes, session, AllCopies(routes, frames[..i])))
        invariant arena.data == old(arena.data) || fresh(arena.data)
      {
        CopiesStep(|frames|, routes, session, frames, i);
        assert arena.len == |Out(stats).bytes|;
        stats := ForwardCopies(frames[i], stats);
      }
      assert frames[..|frames|] == frames;
    }

    /** `append_outputs`: results of the parallel map, appended in order. */
    method AppendOutputs(outs: seq<Output>, received: nat) returns (stats: Stats)
      requires Valid()
      modifies this`offsets, arena, arena.data
      ensures Valid()
      ensures Out(stats) == EmitAll(Nothing(received), outs)
    {
      hide EmitAll, TotalBytes;
      Begin(TotalBytes(outs));
      stats := Stats(received, 0, 0, 0);
      StartOfOutputs(received, outs);
      for i := 0 to |outs|
        invariant Valid() && arena.data.Length >= TotalBytes(outs) && arena.len == TotalBytes(outs[..i])
        invariant Out(stats) == EmitAll(Nothing(received), outs[..i])
        invariant arena.data == old(arena.data) || fresh(arena.data)
      {
        TotalStep(outs, i);
        EmitStep(Nothing(received), outs, i);
        var start := arena.len;
        arena.ExtendUnchecked(outs[i].bytes);
        stats := Finish(start, outs[i].encrypted, outs[i].missed, stats);
      }
      assert outs[..|outs|] == outs;
    }

    /** The order-preserving parallel map. */
    method MapOwned(packets: seq<Packet>) returns (outs: seq<Output>)
      requires Valid()
      ensures outs == OwnedOutputs(routes, session, packets)
    {
      outs := [];
      for i := 0 to |packets|
        invariant |outs| == i && forall j :: 0 <= j < i ==> outs[j] == OwnedOutput(routes, session, packets[j])
      {
        var o := ProcessOwned(packets[i]);
        outs := outs + [o];
      }
    }

    /** The duplication before the full-spray parallel map. */
    method Duplicate(frames: seq<Packet>) returns (copies: seq<Packet>)
      ensures copies == AllCopies(routes, frames)
    {
      copies := [];
      for i := 0 to |frames|
        invariant copies == AllCopies(routes, frames[..i])
      {
        assert frames[..i + 1][..i] == frames[..i];
        var more := DuplicateOne(frames[i]);
        copies := copies + more;
      }
      assert frames[..|frames|] == frames;
    }

    method DuplicateOne(p: Packet) returns (copies: seq<Packet>)
      ensures copies == Copies(routes, p)
    {
      if |p| < HEADER_SIZE {
        return [p];
      }
      var channels := SprayChannels(routes.shards, DstIdOf(p), FlowLabelOf(p), MAX_CHANNELS);
      if channels == [] {
        return [p];
      }
      copies := [];
      for k := 0 to |channels|
        invariant copies == RedirectAll(p, channels)[..k]
      {
        copies := copies + [Redirect(p, channels[k])];
      }
    }

    // ---------- Entry points ----------

    /** `process_batch` and `process_batch_mcr`, from the polled frames to what is sent. Nothing
        is sent for an empty poll. */
    method ProcessBatch(frames: seq<Packet>, mode: Mode, threads: nat)
      returns (stats: Stats, wire: Option<(seq<byte>, seq<(nat, nat)>)>)
      requires Valid()
      requires mode == FullSpray && RunsSerially(|frames|, threads) ==>
                 TotalBytes(FullOutputs(routes, session, AllCopies(routes, frames)))
                 <= Reserved(arena.data.Length, 3 * Need(frames))
      modifies this`offsets, arena, arena.data
      ensures Valid()
      ensures frames == [] ==> wire == None && stats == Stats(0, 0, 0, 0)
      ensures frames != [] ==>
                var outs := BatchOutputs(routes, session, mode, RunsSerially(|frames|, threads), frames);
                wire.Some? && Sent(wire.value.0, wire.value.1, stats) == EmitAll(Nothing(|frames|), outs)
    {
      if frames == [] {
        return Stats(0, 0, 0, 0), None;
      }
      hide EmitAll, SerialOutputs, OwnedOutputs, PrimaryOutputs, FullOutputs, AllCopies;
      match mode {
        case Plain =>
          if RunsSerially(|frames|, threads) {
            stats := RunSerial(frames);
          } else {
            var outs := MapOwned(frames);
            stats := AppendOutputs(outs, |frames|);
          }
        case PrimarySpray =>
          stats := RunPrimary(frames);
        case FullSpray =>
          if RunsSerially(|frames|, threads) {
            stats := RunFullSerial(frames);
          } else {
            Begin(3 * Need(frames));
            var copies := Duplicate(frames);
            var outs := MapOwned(copies);
            stats := AppendOutputs(outs, |frames|);
          }
      }
      wire := Some((arena.data[..arena.len], offsets));
    }

    /** `process_batch_slices`; `None` when the receive ring is exhausted. What it sends is what
        the serial path sends for the frames cut to the slot size. */
    method ProcessBatchSlices(frames: seq<Packet>, ring: SliceRing)
      returns (r: Option<Stats>, wire: Option<(seq<byte>, seq<(nat, nat)>)>)
      requires Valid() && ring.Valid() && Apart(ring)
      modifies this`offsets, arena, arena.data, ring`active, ring.backing, ring.lens
      ensures Valid() && ring.Valid()
      ensures r.None? <==> |frames| > ring.lens.Length
      ensures r.Some? && frames == [] ==> wire == None && r.value == Stats(0, 0, 0, 0)
      ensures r.Some? && frames != [] ==>
                && wire.Some?
                && Sent(wire.value.0, wire.value.1, r.value)
                   == EmitAll(Nothing(|frames|), SerialOutputs(routes, session, Truncated(frames, ring.slotSize)))
    {
      hide SerialOutput, SerialOutputs, Need, EmitAll, Emit, Truncated;
      var polled := ring.PollSlices(frames);
      if polled.None? {
        return None, None;
      }
      if polled.value == 0 {
        Begin(0);
        return Some(Stats(0, 0, 0, 0)), None;
      }
      var stats := RunSlots(Truncated(frames, ring.slotSize), ring);
      return Some(stats), Some((arena.data[..arena.len], offsets));
    }

    /** The loop of `process_batch_slices` over the filled slots. */
    method RunSlots(ghost cut: seq<Packet>, ring: SliceRing) returns (stats: Stats)
      requires Valid() && Apart(ring) && ring.Valid() && |cut| == |ring.active| <= ring.lens.Length
      requires forall i :: 0 <= i < |cut| ==> ring.active[i] == i && ring.Slot(i) == cut[i]
      modifies this`offsets, arena, arena.data
      ensures Valid() && ring.Valid()
      ensures Out(stats) == EmitAll(Nothing(|cut|), SerialOutputs(routes, session, cut))
    {
      ghost var outs := SerialOutputs(routes, session, cut);
      var received := |ring.active|;
      var space := SlotSpace(ring, cut);
      StartOfBatch(received, outs, cut);
      hide SerialOutput, SerialOutputs, Need, EmitAll, Emit, SliceRing.Slot, SliceRing.Valid;
      Begin(space);
      stats := ForwardSlots(cut, outs, ring);
    }

    method ForwardSlots(ghost cut: seq<Packet>, ghost outs: seq<Output>, ring: SliceRing) returns (stats: Stats)
      requires Valid() && Apart(ring) && ring.Valid() && |cut| == |ring.active| == |outs| <= ring.lens.Length
      requires forall i :: 0 <= i < |cut| ==>
                 ring.active[i] == i && ring.Slot(i) == cut[i] && outs[i] == SerialOutput(routes, session, cut[i])
      requires arena.len == 0 && offsets == [] && Need(cut) <= arena.data.Length
      requires EmitAll(Nothing(|cut|), outs[..0]) == Nothing(|cut|) && Need(cut[..0]) == 0
      modifies this`offsets, arena`len, arena.data
      ensures Valid() && ring.Valid()
      ensures Out(stats) == EmitAll(Nothing(|cut|), outs)
    {
      hide SerialOutput, Need, EmitAll, Emit, SliceRing.Slot, SliceRing.Valid;
      stats := Stats(|ring.active|, 0, 0, 0);
      for i := 0 to |ring.active|
        invariant Valid() && ring.Valid() && arena.len <= Need(cut[..i])
        invariant Out(stats) == EmitAll(Nothing(|cut|), outs[..i])
      {
        NeedStep(cut, i);
        EmitStep(Nothing(|cut|), outs, i);
        stats := ForwardSlot(cut, ring, i, stats);
      }
      assert outs[..|outs|] == outs;
    }

    /** The arena and the receive ring share no storage. */
    ghost predicate Apart(ring: SliceRing)
      reads this, arena
    {
      ring.backing != arena.data && ring.lens as object != arena.data
    }

    /** The loop body of `process_batch_slices`. */
    method ForwardSlot(ghost cut: seq<Packet>, ring: SliceRing, i: nat, stats: Stats) returns (st: Stats)
      requires Valid() && Apart(ring) && ring.Valid() && i < |cut| == |ring.active| <= ring.lens.Length
      requires ring.active[i] == i && ring.Slot(i) == cut[i]
      requires arena.len + |cut[i]| + TAG_SIZE <= arena.data.Length
      modifies this`offsets, arena`len, arena.data
      ensures Valid() && ring.Valid() && arena.data == old(arena.data)
      ensures arena.len <= old(arena.len) + |cut[i]| + TAG_SIZE
      ensures Out(st) == Emit(old(Out(stats)), SerialOutput(routes, session, cut[i]))
    {
      hide SerialOutput, Emit, SlotOf, Shaped;
      var p := ring.Slot(ring.active[i]);
      st := ForwardSerial(p, stats);
    }

    /** What `process_batch_slices` reserves: the filled lengths and a tag for each. */
    method SlotSpace(ring: SliceRing, ghost packets: seq<Packet>) returns (space: nat)
      requires ring.Valid() && |packets| == |ring.active| <= ring.lens.Length
      requires forall i :: 0 <= i < |ring.active| ==> ring.active[i] == i && ring.Slot(i) == packets[i]
      ensures space == Need(packets)
    {
      assert Need(packets[..0]) == 0;
      hide Need, SlotOf, Shaped;
      space := 0;
      for i := 0 to |ring.active|
        invariant space == Need(packets[..i])
      {
        NeedStep(packets, i);
        space := space + ring.lens[ring.active[i]] + TAG_SIZE;
      }
      assert packets[..|packets|] == packets;
    }
  }

  /** How the forwarder is configured: `mcr_enabled` off, or on with its spray mode. */
  datatype Mode = Plain | PrimarySpray | FullSpray

  predicate RunsSerially(received: nat, threads: nat) { received < PARALLEL_BATCH_THRESHOLD || threads <= 1 }

  /** What a batch is specified to put out. */
  function BatchOutputs(t: Table, s: Option<Session>, mode: Mode, serial: bool, frames: seq<Packet>): seq<Output>
    requires ValidSession(s)
  {
    match mode
    case Plain => if serial then SerialOutputs(t, s, frames) else OwnedOutputs(t, s, frames)
    case PrimarySpray => PrimaryOutputs(t, s, frames)
    case FullSpray =>
      if serial then FullOutputs(t, s, AllCopies(t, frames)) else OwnedOutputs(t, s, AllCopies(t, frames))
  }

  lemma CoverBytes(p: Packet, buf: Packet, x: Sealed)
    requires |p| >= HEADER_SIZE && Fits(p) && buf == FailedBytes(p, CoverTail)
    requires |x.ciphertext| == LengthOf(p) && |x.tag| == TAG_SIZE
    ensures Patch(Patch(buf, HEADER_SIZE, x.ciphertext), HEADER_SIZE + LengthOf(p), x.tag)
            == EncryptedBytes(p, x, CoverTail)
  {
    var end := HEADER_SIZE + LengthOf(p);
    var one := Patch(buf, HEADER_SIZE, x.ciphertext);
    assert one == p[..HEADER_SIZE] + x.ciphertext + buf[end..];
    var two := Patch(one, end, x.tag);
    assert two == p[..HEADER_SIZE] + x.ciphertext + x.tag + buf[end + TAG_SIZE..];
    assert buf[end + TAG_SIZE..] == TailBytes(p, CoverTail);
  }

  lemma StartOfBatch(received: nat, outs: seq<Output>, frames: seq<Packet>)
    ensures EmitAll(Nothing(received), outs[..0]) == Nothing(received) && Need(frames[..0]) == 0
  {
  }

  lemma NoCopiesYet(received: nat, t: Table, s: Option<Session>, frames: seq<Packet>)
    requires ValidSession(s)
    ensures EmitAll(Nothing(received), FullOutputs(t, s, AllCopies(t, frames[..0]))) == Nothing(received)
  {
    assert AllCopies(t, frames[..0]) == [];
  }

  lemma ChannelOutputs(t: Table, s: Option<Session>, p: Packet, channels: seq<Id>, before: Sent)
    requires |p| >= HEADER_SIZE && ValidSession(s)
    ensures var outs := FullOutputs(t, s, RedirectAll(p, channels));
            && EmitAll(before, outs[..0]) == before && TotalBytes(outs[..0]) == 0
            && |outs| == |channels|
            && forall i :: 0 <= i < |channels| ==> outs[i] == FullOutput(t, s, Aimed(p, Some(channels[i])))
  {
  }

  lemma SingleCopy(t: Table, s: Option<Session>, p: Packet, before: Sent)
    requires ValidSession(s)
    ensures TotalBytes(FullOutputs(t, s, [p])) == |FullOutput(t, s, p).bytes|
    ensures EmitAll(before, FullOutputs(t, s, [p])) == Emit(before, FullOutput(t, s, p))
  {
    var outs := FullOutputs(t, s, [p]);
    EmitStep(before, outs, 0);
    TotalStep(outs, 0);
    assert outs[..1] == outs && outs[..0] == [];
  }

  /** The outputs of one more frame's copies, which fit if those of the whole batch do. */
  lemma CopiesStep(received: nat, t: Table, s: Option<Session>, frames: seq<Packet>, i: nat)
    requires ValidSession(s) && i < |frames|
    ensures var a, c := FullOutputs(t, s, AllCopies(t, frames[..i])), FullOutputs(t, s, Copies(t, frames[i]));
            && |EmitAll(Nothing(received), a).bytes| + TotalBytes(c)
               <= TotalBytes(FullOutputs(t, s, AllCopies(t, frames)))
            && EmitAll(Nothing(received), FullOutputs(t, s, AllCopies(t, frames[..i + 1])))
               == EmitAll(EmitAll(Nothing(received), a), c)
  {
    hide Copies, FullOutput, EmitAll, TotalBytes;
    var a, c := AllCopies(t, frames[..i]), Copies(t, frames[i]);
    assert frames[..i + 1][..i] == frames[..i];
    assert AllCopies(t, frames[..i + 1]) == a + c;
    CopiesMonotone(t, s, frames, i + 1);
    hide AllCopies;
    assert FullOutputs(t, s, a + c) == FullOutputs(t, s, a) + FullOutputs(t, s, c);
    hide FullOutputs;
    EmitBytes(Nothing(received), FullOutputs(t, s, a));
    TotalConcat(FullOutputs(t, s, a), FullOutputs(t, s, c));
    EmitConcat(Nothing(received), FullOutputs(t, s, a), FullOutputs(t, s, c));
  }

  lemma {:induction false} CopiesMonotone(t: Table, s: Option<Session>, frames: seq<Packet>, n: nat)
    requires ValidSession(s) && n <= |frames|
    ensures TotalBytes(FullOutputs(t, s, AllCopies(t, frames[..n])))
            <= TotalBytes(FullOutputs(t, s, AllCopies(t, frames)))
    decreases |frames|
  {
    hide FullOutputs, AllCopies, Copies, TotalBytes;
    if n == |frames| {
      assert frames[..n] == frames;
    } else {
      var front := frames[..|frames| - 1];
      CopiesMonotone(t, s, front, n);
      assert front[..n] == frames[..n];
      OutputsOfMore(t, s, front, frames[|frames| - 1]);
      assert frames == front + [frames[|frames| - 1]];
    }
  }

  lemma StartOfOutputs(received: nat, outs: seq<Output>)
    ensures EmitAll(Nothing(received), outs[..0]) == Nothing(received) && TotalBytes(outs[..0]) == 0
  {
  }

  /** The specified output of a copy, in terms of the packet it was copied from. */
  lemma CopyOutput(t: Table, s: Option<Session>, p: Packet, hop: Option<Id>)
    requires |p| >= HEADER_SIZE && ValidSession(s)
    ensures var dst := if hop.Some? then hop.value else DstIdOf(p);
            var routed := LookupOrPredict(t, SrcIdOf(p), dst, FlowLabelOf(p)).Some?;
            var whole := if hop.Some? then Redirect(p, hop.value) else p;
            FullOutput(t, s, Aimed(p, hop))
            == if routed && s.Some? && Fits(p) then
                 (if Seal(s.value, p).Ok? then Output(SealedOrHead(p, hop, s.value, true), true, false)
                  else Output(whole, false, true))
               else Output(whole, false, !routed || (s.Some? && LengthOf(p) > 0))
  {
    if hop.Some? {
      RedirectKeepsPayload(p, hop.value);
    }
  }

  /** The packet with the hop written into it, if there is one. */
  function Aimed(p: Packet, hop: Option<Id>): (q: Packet)
    requires |p| >= HEADER_SIZE
    ensures |q| == |p|
  {
    if hop.Some? then Redirect(p, hop.value) else p
  }

  function SealedOrHead(p: Packet, hop: Option<Id>, s: Session, keep: bool): (r: seq<byte>)
    requires s.Valid() && |p| >= HEADER_SIZE && Fits(p)
    ensures HEADER_SIZE + LengthOf(p) <= |r| <= |p| + TAG_SIZE
    ensures Seal(s, p).Err? ==> |r| == HEADER_SIZE + LengthOf(p)
  {
    match Seal(s, p)
    case Ok(x) =>
      Aimed(p, hop)[..HEADER_SIZE] + x.ciphertext + x.tag + TailBytes(p, if keep then KeepTail else DropTail)
    case Err(_) => Aimed(p, hop)[..HEADER_SIZE + LengthOf(p)]
  }

  /** `SealedOrHead` spelled out. */
  lemma SealedOrHeadIs(p: Packet, hop: Option<Id>, s: Session, keep: bool)
    requires s.Valid() && |p| >= HEADER_SIZE && Fits(p)
    ensures var q, end := Aimed(p, hop), HEADER_SIZE + LengthOf(p);
            var sealed := EncryptDetached(s, q[HEADER_SIZE..end], SeqNumOf(p));
            && sealed == Seal(s, p)
            && SealedOrHead(p, hop, s, keep)
               == if sealed.Ok? then
                    q[..HEADER_SIZE] + sealed.value.ciphertext + sealed.value.tag
                    + (if keep && |p| > end then p[end..] else [])
                  else q[..end]
  {
    PayloadBehind(p, hop);
    assert TailBytes(p, if keep then KeepTail else DropTail)
        == if keep && |p| > HEADER_SIZE + LengthOf(p) then p[HEADER_SIZE + LengthOf(p)..] else [];
  }

  lemma SliceBehind(front: seq<byte>, q: Packet, n: nat)
    requires |q| >= HEADER_SIZE + n
    ensures (front + q[..HEADER_SIZE + n])[|front| + HEADER_SIZE..|front| + HEADER_SIZE + n]
            == q[HEADER_SIZE..HEADER_SIZE + n]
  {
  }

  lemma PayloadBehind(p: Packet, hop: Option<Id>)
    requires |p| >= HEADER_SIZE && Fits(p)
    ensures Aimed(p, hop)[HEADER_SIZE..HEADER_SIZE + LengthOf(p)] == Payload(p)
  {
    if hop.Some? {
      RedirectKeepsPayload(p, hop.value);
    }
  }

  lemma Reassociate(a: seq<byte>, b: seq<byte>, c: seq<byte>, d: seq<byte>, e: seq<byte>)
    ensures a + b + c + d + e == a + (b + c + d + e)
  {
  }
}
